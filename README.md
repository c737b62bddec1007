# Game of Life in the browser — a verified model of the simulation and interaction core

The program runs Conway's Game of Life on a 150 × 150 toroidal grid drawn on a canvas. The user
paints cells by dragging the pointer: the primary button paints Alive and the secondary button
paints Dead. A play/pause button starts and stops the simulation. An animation-frame loop
advances one generation on every fifth frame while running.

This project models that core in Dafny:

- `cell.dfy`, module `Cells`: the two-valued `Cell`, its numeric value (`Dead = 0`, `Alive = 1`),
  the flip used by `toggle_cell`, and the per-cell rule `NextCell`.
- `board.dfy`, module `Boards`: a `Board` value holding width, height and the row-major buffer.
  It has the flat index `row * width + col` and the neighbour count, written as the source's
  nested loop over the deltas `[height - 1, 0, 1]` × `[width - 1, 0, 1]` with the `(0, 0)` pair
  skipped. It also defines one generation `Step`, and the single-cell edits `Toggle` and `Paint`,
  with their lemmas.
- `universe.dfy`, module `Universes`: the `Universe` class with `width`, `height` and
  `cells: array<Cell>`. `LiveNeighbourCount` keeps the source's nested loops. `Tick` fills a
  cloned buffer row by row from the old cells and old counts, then replaces the buffer.
  `ToggleCell` flips one cell in place. Each method is proved against the `Boards` functions.
- `session.dfy`, module `Sessions`: the page session. It is first a `State` value with one
  function per event (pointer down, move, up and leave, the play/pause click, and the animation
  frame), plus lemmas about them. The `Session` class then has one method per handler. Each
  method is proved to change the shared universe and its own fields exactly as the matching
  function says.

The neighbour count agrees with the eight toroidal neighbours `(row ± 1, col ± 1)` only when the
board is at least 2 wide and 2 high (`NeighbourCountIsToroidal`). On a 1-wide or 1-high board the
delta lists contain `0` twice, so the `(0, 0)` skip fires more than once. On a 1 × 1 board the
count is therefore five times the cell's value, not eight times (`NeighbourCountOneByOne`). The
model keeps the loop exactly as written.

## Model

| member | source | states |
|---|---|---|
| `Cells.Value` | src/lib.rs:46 | a cell adds at most 1 to a count, and adds 1 exactly when it is Alive |
| `Cells.Flip` | src/lib.rs:97-100 | toggling always changes the cell |
| `Cells.FlipFlip` | src/lib.rs:97-100 | toggling twice gives back the original cell |
| `Cells.NextCell` | src/lib.rs:115-121 | the next cell is Alive iff it has exactly 3 live neighbours, or is Alive with exactly 2; so an Alive cell with fewer than 2 or more than 3 dies, and a Dead cell is born only with exactly 3 |
| `Boards.Blank` | src/lib.rs:129-142 | the initial board has the given dimensions, width × height cells, all Dead |
| `Boards.Index` | src/lib.rs:31-33 | an in-range (row, col) maps to a flat index below width × height |
| `Boards.IndexRoundTrip` | src/lib.rs:31-33 | the index divided by width gives the row back, and the remainder gives the column |
| `Boards.IndexInjective` | src/lib.rs:31-33 | two in-range positions share an index iff they are the same position |
| `Boards.IndexCovers` | src/lib.rs:31-33 | every buffer position is the index of an in-range (row, col) |
| `Boards.Wrap` | src/lib.rs:43-44 | the wrapped neighbour row (column) is always below height (width) |
| `Boards.WrapIsSigned` | src/lib.rs:37-44 | adding `n - 1` modulo n is the toroidal step back by one, and adding 1 is the step forward |
| `Boards.RowSum` | src/lib.rs:38-47 | the inner loop adds at most one per column delta |
| `Boards.GridSum` | src/lib.rs:37-48 | the nested loops add at most one per (row delta, column delta) pair |
| `Boards.NeighbourCountTerms` | src/lib.rs:35-50 | the count is the sum of the nine delta pairs in loop order |
| `Boards.NeighbourCountAtMost8` | src/lib.rs:35-50 | the count never exceeds 8 |
| `Boards.NeighbourCountIsToroidal` | src/lib.rs:35-50 | on a board at least 2 × 2, the count equals the live cells among the eight toroidal neighbours |
| `Boards.NeighbourCountOneByOne` | src/lib.rs:37-40 | on a 1 × 1 board the repeated `0` deltas leave five counted pairs, so the count is 5 × the cell's value |
| `Boards.CentreNotCounted` | src/lib.rs:39-45 | on a board at least 2 × 2, no neighbour position read by the count is the centre cell |
| `Boards.Step` | src/lib.rs:106-127 | a generation keeps the width, the height and the buffer length |
| `Boards.StepFromCells` | src/lib.rs:107-126 | a buffer holding the rule's result for every cell is the next generation |
| `Boards.StepRule` | src/lib.rs:109-123 | cell (row, col) of the next generation is the rule applied to the old cell and its count on the old board, independent of loop order |
| `Boards.StepAllDead` | src/lib.rs:115-121 | an all-Dead board stays all-Dead: no spontaneous birth |
| `Boards.StepIsolatedDies` | src/lib.rs:115-121 | on a board at least 2 × 2, a lone Alive cell is Dead after one generation |
| `Boards.ToggleChangesOnlyTarget` | src/lib.rs:95-101 | a toggle changes the cell at (row, col) and no other cell |
| `Boards.ToggleTwice` | src/lib.rs:95-101 | toggling the same cell twice restores the board |
| `Boards.PaintEffect` | src/lib.rs:230-234 | painting writes the value at the in-range target, leaves every other cell alone, and leaves an out-of-range target's board unchanged |
| `Boards.PaintIdempotent` | src/lib.rs:256-260 | painting the same cell with the same value twice is the same as painting it once |
| `Universes.Universe.constructor` | src/lib.rs:129-142 | a new universe is 150 × 150 with every cell Dead |
| `Universes.Universe.LiveNeighbourCount` | src/lib.rs:35-50 | the nested loops return the board's neighbour count, which is at most 8 |
| `Universes.Universe.ToggleCell` | src/lib.rs:95-101 | the buffer afterwards is the board with cell (row, col) toggled |
| `Universes.Universe.StepRow` | src/lib.rs:110-124 | one pass of the inner loop writes the next state of every cell of that row, reading only the old board |
| `Universes.Universe.Tick` | src/lib.rs:106-127 | the dimensions are kept and the new buffer is the next generation of the old board |
| `Sessions.GridCoord` | src/lib.rs:227-228 | a grid coordinate is the floor of the canvas coordinate divided by 8, saturated into `u32`, so negative coordinates give 0 |
| `Sessions.GridCoordInRange` | src/lib.rs:227-230 | a canvas coordinate is on a line of n cells iff it is below n × 8 |
| `Sessions.PaintValue` | src/lib.rs:213 | the paint value is Dead iff the button is 2 |
| `Sessions.Initial` | src/lib.rs:155-202 | start-up: no drag, running, frame counter 0 |
| `Sessions.Frames` | src/lib.rs:322-327 | n frames keep the board's dimensions and add n to the frame counter |
| `Sessions.Generations` | src/lib.rs:326 | repeated generations keep the board's dimensions |
| `Sessions.PointerDownPaints` | src/lib.rs:211-235 | pointer-down sets the drag value to Dead iff the button is 2, whatever the previous drag state; it writes that value at the target cell only, and leaves the run flag, counter and text alone |
| `Sessions.PointerDownOutsideIgnored` | src/lib.rs:225-234 | a pointer-down past the board's right or bottom edge leaves the board unchanged |
| `Sessions.PointerMoveIdle` | src/lib.rs:242-243 | without a drag, pointer-move changes nothing |
| `Sessions.PointerMovePaints` | src/lib.rs:242-262 | during a drag, pointer-move writes the drag value at the target cell only and keeps the drag |
| `Sessions.PointerMoveIdempotent` | src/lib.rs:243-260 | repeating a pointer-move at the same point changes nothing more |
| `Sessions.ReleaseEndsDrag` | src/lib.rs:267-275 | pointer-up and pointer-leave end the drag and never touch the board; later moves are inert |
| `Sessions.ClickToggles` | src/lib.rs:302-306 | a click negates the run flag and sets the text to "Pause" iff running, else "Play"; two clicks restore the flag |
| `Sessions.FrameTicksWhenDue` | src/lib.rs:322-327 | each frame adds 1 to the counter and advances a generation iff running and the new counter is a multiple of 5 |
| `Sessions.PausedFramesKeepBoard` | src/lib.rs:322-327 | while paused, any number of frames leave the board unchanged |
| `Sessions.RunningFramesAdvance` | src/lib.rs:322-327 | while running, n frames advance the board by exactly as many generations as there are multiples of 5 among the frame numbers reached |
| `Sessions.RunningThrottleOneGeneration` | src/lib.rs:322-327 | while running, every 5 consecutive frames advance the board by exactly one generation |
| `Sessions.Session.constructor` | src/lib.rs:155-202 | the session starts with a fresh blank 150 × 150 universe, no drag, running, counter 0 |
| `Sessions.Session.PointerDown` | src/lib.rs:211-235 | the new session state is the pointer-down function applied to the old one |
| `Sessions.Session.PointerMove` | src/lib.rs:242-262 | the new session state is the pointer-move function applied to the old one |
| `Sessions.Session.PointerUp` | src/lib.rs:267-270 | the new session state has the drag cleared and nothing else changed |
| `Sessions.Session.PointerLeave` | src/lib.rs:273-275 | the new session state has the drag cleared and nothing else changed |
| `Sessions.Session.ToggleRun` | src/lib.rs:298-306 | the new session state is the click function applied to the old one |
| `Sessions.Session.Frame` | src/lib.rs:319-327 | the new session state is the frame function applied to the old one, with a generation exactly when one is due |

## Left out

- Rendering (`draw`, `draw_grid`, the canvas clear in the frame loop): canvas calls with floating-point geometry, and no state of the core changes.
- Browser plumbing in `start`: DOM and canvas lookup, canvas sizing, `Rc<RefCell<…>>` sharing, closure wrapping, pointer capture and release, context-menu suppression, and re-arming `request_animation_frame`. Handlers are methods on one session object, called one at a time.
- Coordinate mapping from client coordinates: the bounding-rectangle offset and scale factors are floating-point. The handlers take integer canvas coordinates. `GridCoord` keeps the floor division by the cell size and the saturating `as u32` cast.
- `u32` arithmetic in `get_index` and in `row + delta_row`: modelled on unbounded naturals. Overflow cannot happen at 150 × 150.
- `Sessions.Frames`: the frame counter is an unbounded natural. The source's integer counter would overflow after about 2^31 frames.
- The commented-out click handler is dead code. The `toggle_cell` it called is modelled as `Universes.Universe.ToggleCell`.
- The initial play/pause text comes from the page markup, which is not part of this model. The session constructor takes it as a parameter.
