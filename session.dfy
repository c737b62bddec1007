/**
 * The page session: the drag/paint state driven by pointer events, the run flag driven by the
 * play/pause button, and the animation-frame driver that throttles generations.
 * Each handler is first given as a function on a session value, then as a method of the
 * `Session` class proved to act on the shared universe exactly as that function says.
 */
module Sessions {
  import opened Cells
  import opened Boards
  import opened Universes

  datatype Option<T> = None | Some(value: T)

  /** Side of one cell in canvas pixels. */
  const CellSize: nat := 8
  /** A generation is due on every frame whose number is a multiple of this divisor. */
  const Throttle: nat := 5
  /** The pointer button number of the secondary (right) button. */
  const SecondaryButton: int := 2
  /** The largest `u32`; a float cast `as u32` saturates to it. */
  const U32Max: nat := 0xFFFF_FFFF

  /** Grid coordinate of a canvas coordinate: `floor(p / CellSize)`, saturated into `u32` as `as u32` does. */
  function GridCoord(p: int): (r: nat)
    ensures r <= U32Max
    ensures p < 0 ==> r == 0
  {
    var q := p / CellSize;
    if q < 0 then 0 else if q > U32Max then U32Max else q
  }

  /** A canvas coordinate falls inside n cells exactly when it is left of (or above) their far edge. */
  lemma GridCoordInRange(p: int, n: nat)
    requires 1 <= n <= U32Max
    ensures GridCoord(p) < n <==> p < n * CellSize
  {
    if p >= 0 {
      var q := p / CellSize;
      assert q * CellSize <= p < q * CellSize + CellSize;
      if q < n {
        assert q + 1 <= n;
        assert (q + 1) * CellSize <= n * CellSize;
      } else {
        assert n * CellSize <= q * CellSize;
      }
    }
  }

  /** The value a pointer-down paints: Dead for the secondary button, Alive for any other. */
  function PaintValue(button: int): (v: Cell)
    ensures v == Dead <==> button == SecondaryButton
  {
    if button == SecondaryButton then Dead else Alive
  }

  /** The play/pause button text for a run flag. */
  function LabelFor(running: bool): string
  {
    if running then "Pause" else "Play"
  }

  // ---------------------------------------------------------------- the session as a value

  datatype State = State(board: Board, dragMode: Option<Cell>, running: bool, frameCount: nat, buttonText: string)
  {
    ghost predicate Valid() {
      board.Valid()
    }
  }

  /** The session right after start-up: a blank 150 * 150 board, no drag, running, no frame yet. */
  function Initial(buttonText: string): (s: State)
    ensures s.Valid() && s.running && s.dragMode == None && s.frameCount == 0
  {
    State(Blank(150, 150), None, true, 0, buttonText)
  }

  /** Pointer-down: start painting with the button's value and paint the cell under the pointer. */
  function AfterPointerDown(s: State, button: int, x: int, y: int): State
    requires s.Valid()
  {
    var v := PaintValue(button);
    s.(dragMode := Some(v), board := Paint(s.board, GridCoord(y), GridCoord(x), v))
  }

  /** Pointer-move: while painting, paint the cell under the pointer; otherwise nothing. */
  function AfterPointerMove(s: State, x: int, y: int): State
    requires s.Valid()
  {
    match s.dragMode
    case None => s
    case Some(v) => s.(board := Paint(s.board, GridCoord(y), GridCoord(x), v))
  }

  /** Pointer-up: stop painting. */
  function AfterPointerUp(s: State): State
  {
    s.(dragMode := None)
  }

  /** Pointer-leave: stop painting. */
  function AfterPointerLeave(s: State): State
  {
    s.(dragMode := None)
  }

  /** Play/pause click: negate the run flag and relabel the button. */
  function AfterClick(s: State): State
  {
    s.(running := !s.running, buttonText := LabelFor(!s.running))
  }

  /** Whether the frame numbered `frame` advances a generation. */
  function TickDue(running: bool, frame: nat): bool
  {
    running && frame % Throttle == 0
  }

  /** Animation frame: count the frame, then advance a generation when one is due. */
  function AfterFrame(s: State): State
    requires s.Valid()
  {
    var frame := s.frameCount + 1;
    s.(frameCount := frame, board := if TickDue(s.running, frame) then Step(s.board) else s.board)
  }

  /** n animation frames in a row. */
  function Frames(s: State, n: nat): (r: State)
    requires s.Valid()
    ensures r.Valid() && r.board.width == s.board.width && r.board.height == s.board.height
    ensures r.frameCount == s.frameCount + n
    decreases n
  {
    if n == 0 then s else Frames(AfterFrame(s), n - 1)
  }

  /** m generations. */
  function Generations(b: Board, m: nat): (r: Board)
    requires b.Valid()
    ensures r.Valid() && r.width == b.width && r.height == b.height
    decreases m
  {
    if m == 0 then b else Generations(Step(b), m - 1)
  }

  // ---------------------------------------------------------------- properties of the handlers

  /**
   * Pointer-down always starts painting, whatever the previous drag state, with Dead exactly for
   * the secondary button; it writes that value at the target cell when the target is on the board,
   * and changes nothing else.
   */
  lemma PointerDownPaints(s: State, button: int, x: int, y: int, r: nat, c: nat)
    requires s.Valid() && r < s.board.height && c < s.board.width
    ensures var t := AfterPointerDown(s, button, x, y);
      && t.Valid() && t.board.width == s.board.width && t.board.height == s.board.height
      && t.dragMode.Some? && (t.dragMode.value == Dead <==> button == SecondaryButton)
      && t.running == s.running && t.frameCount == s.frameCount && t.buttonText == s.buttonText
      && var i := Index(s.board.width, s.board.height, r, c);
         t.board.cells[i] == if r == GridCoord(y) && c == GridCoord(x) then t.dragMode.value else s.board.cells[i]
  {
    PaintEffect(s.board, GridCoord(y), GridCoord(x), PaintValue(button), r, c);
  }

  /** A pointer-down beyond the board's right or bottom edge leaves the board unchanged. */
  lemma PointerDownOutsideIgnored(s: State, button: int, x: int, y: int)
    requires s.Valid() && s.board.width <= U32Max && s.board.height <= U32Max
    requires x >= s.board.width * CellSize || y >= s.board.height * CellSize
    ensures AfterPointerDown(s, button, x, y).board == s.board
  {
    GridCoordInRange(x, s.board.width);
    GridCoordInRange(y, s.board.height);
  }

  /** Without an active drag, a pointer-move changes nothing at all. */
  lemma PointerMoveIdle(s: State, x: int, y: int)
    requires s.Valid() && s.dragMode == None
    ensures AfterPointerMove(s, x, y) == s
  {
  }

  /** During a drag, a pointer-move writes the drag value at the target cell only, and keeps the drag. */
  lemma PointerMovePaints(s: State, x: int, y: int, r: nat, c: nat)
    requires s.Valid() && s.dragMode.Some? && r < s.board.height && c < s.board.width
    ensures var t := AfterPointerMove(s, x, y);
      && t.Valid() && t.dragMode == s.dragMode
      && t.running == s.running && t.frameCount == s.frameCount && t.buttonText == s.buttonText
      && var i := Index(s.board.width, s.board.height, r, c);
         t.board.cells[i] == if r == GridCoord(y) && c == GridCoord(x) then s.dragMode.value else s.board.cells[i]
  {
    PaintEffect(s.board, GridCoord(y), GridCoord(x), s.dragMode.value, r, c);
  }

  /** Repeating a paint at the same point changes nothing more: painting is idempotent. */
  lemma PointerMoveIdempotent(s: State, x: int, y: int)
    requires s.Valid()
    ensures AfterPointerMove(AfterPointerMove(s, x, y), x, y) == AfterPointerMove(s, x, y)
  {
    if s.dragMode.Some? {
      PaintIdempotent(s.board, GridCoord(y), GridCoord(x), s.dragMode.value);
    }
  }

  /** Pointer-up and pointer-leave end the drag and never touch the board; a move after them is inert. */
  lemma ReleaseEndsDrag(s: State, x: int, y: int)
    requires s.Valid()
    ensures AfterPointerUp(s).dragMode == None && AfterPointerUp(s).board == s.board
    ensures AfterPointerLeave(s).dragMode == None && AfterPointerLeave(s).board == s.board
    ensures AfterPointerMove(AfterPointerUp(s), x, y) == AfterPointerUp(s)
    ensures AfterPointerMove(AfterPointerLeave(s), x, y) == AfterPointerLeave(s)
  {
  }

  /** A click negates the run flag and labels the button "Pause" exactly when running; two clicks restore the flag. */
  lemma ClickToggles(s: State)
    ensures AfterClick(s).running == !s.running
    ensures AfterClick(s).buttonText == "Pause" <==> AfterClick(s).running
    ensures AfterClick(s).buttonText == "Play" <==> !AfterClick(s).running
    ensures AfterClick(AfterClick(s)).running == s.running
    ensures AfterClick(AfterClick(s)).board == s.board
    ensures AfterClick(AfterClick(s)).buttonText == LabelFor(s.running)
  {
  }

  /** Each frame advances the counter by one and ticks exactly when running on a multiple of the divisor. */
  lemma FrameTicksWhenDue(s: State)
    requires s.Valid()
    ensures AfterFrame(s).frameCount == s.frameCount + 1
    ensures AfterFrame(s).board == if s.running && (s.frameCount + 1) % Throttle == 0 then Step(s.board) else s.board
    ensures AfterFrame(s).running == s.running && AfterFrame(s).dragMode == s.dragMode
  {
  }

  /** While paused, any number of frames leave the board unchanged. */
  lemma {:induction false} PausedFramesKeepBoard(s: State, n: nat)
    requires s.Valid() && !s.running
    ensures Frames(s, n).board == s.board && !Frames(s, n).running
    decreases n
  {
    if n > 0 {
      PausedFramesKeepBoard(AfterFrame(s), n - 1);
    }
  }

  lemma GenerationsStep(b: Board, m: nat)
    requires b.Valid()
    ensures Generations(Step(b), m) == Generations(b, m + 1)
  {
  }

  /**
   * While running, n frames advance the board by exactly as many generations as there are
   * multiples of the divisor among the frame numbers they reach.
   */
  lemma {:induction false} RunningFramesAdvance(s: State, n: nat)
    requires s.Valid() && s.running
    ensures Frames(s, n).board == Generations(s.board, (s.frameCount + n) / Throttle - s.frameCount / Throttle)
    decreases n
  {
    if n > 0 {
      var t := AfterFrame(s);
      RunningFramesAdvance(t, n - 1);
      var f := s.frameCount;
      if (f + 1) % Throttle == 0 {
        assert (f + 1) / Throttle == f / Throttle + 1;
        GenerationsStep(s.board, (f + n) / Throttle - (f + 1) / Throttle);
      } else {
        assert (f + 1) / Throttle == f / Throttle;
      }
    }
  }

  /** While running, every run of Throttle consecutive frames advances the board by exactly one generation. */
  lemma RunningThrottleOneGeneration(s: State)
    requires s.Valid() && s.running
    ensures Frames(s, Throttle).board == Step(s.board)
  {
    RunningFramesAdvance(s, Throttle);
    assert (s.frameCount + Throttle) / Throttle == s.frameCount / Throttle + 1;
  }

  // ---------------------------------------------------------------- the session object

  class Session {
    const universe: Universe
    var dragMode: Option<Cell>
    var running: bool
    var frameCount: nat
    var buttonText: string

    ghost predicate Valid()
      reads this, universe
    {
      universe.Valid()
    }

    /** The session as a value. */
    ghost function Snapshot(): (s: State)
      reads this, universe, universe.cells
      requires Valid()
      ensures s.Valid()
    {
      State(universe.Snapshot(), dragMode, running, frameCount, buttonText)
    }

    /** Start-up with the button's initial text. */
    constructor (initialText: string)
      ensures Valid() && fresh(universe) && fresh(universe.cells)
      ensures Snapshot() == Initial(initialText)
    {
      universe := new Universe();
      dragMode := None;
      running := true;
      frameCount := 0;
      buttonText := initialText;
    }

    method PointerDown(button: int, x: int, y: int)
      requires Valid()
      modifies this, universe.cells
      ensures Valid() && universe.cells == old(universe.cells)
      ensures Snapshot() == AfterPointerDown(old(Snapshot()), button, x, y)
    {
      var paintTo := if button == SecondaryButton then Dead else Alive;
      dragMode := Some(paintTo);
      var col := GridCoord(x);
      var row := GridCoord(y);
      if row < universe.height && col < universe.width {
        var idx := Index(universe.width, universe.height, row, col);
        universe.cells[idx] := paintTo;
      }
    }

    method PointerMove(x: int, y: int)
      requires Valid()
      modifies universe.cells
      ensures Valid()
      ensures Snapshot() == AfterPointerMove(old(Snapshot()), x, y)
    {
      if dragMode.Some? {
        var paintTo := dragMode.value;
        var col := GridCoord(x);
        var row := GridCoord(y);
        if row < universe.height && col < universe.width {
          var idx := Index(universe.width, universe.height, row, col);
          universe.cells[idx] := paintTo;
        }
      }
    }

    method PointerUp()
      requires Valid()
      modifies this
      ensures Valid()
      ensures Snapshot() == AfterPointerUp(old(Snapshot()))
    {
      dragMode := None;
    }

    method PointerLeave()
      requires Valid()
      modifies this
      ensures Valid()
      ensures Snapshot() == AfterPointerLeave(old(Snapshot()))
    {
      dragMode := None;
    }

    method ToggleRun()
      requires Valid()
      modifies this
      ensures Valid()
      ensures Snapshot() == AfterClick(old(Snapshot()))
    {
      running := !running;
      buttonText := if running then "Pause" else "Play";
    }

    method Frame()
      requires Valid()
      modifies this, universe
      ensures Valid()
      ensures Snapshot() == AfterFrame(old(Snapshot()))
    {
      frameCount := frameCount + 1;
      if running && frameCount % Throttle == 0 {
        universe.Tick();
      }
    }
  }
}
