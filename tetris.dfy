/**
 * The game-state engine: the active piece (class Player, whose 4×4 pattern
 * is turned in place) and the game (class Game: playfield, counters, the
 * gravity clock and one tick of the main loop). Keys, the clock, the random
 * generator and the game-over menu are inputs of the tick.
 */
module Tetris {
  import opened Catalogue
  import opened Collision
  import opened Playfield
  import Rotation

  /** Base gravity interval in milliseconds (`dropTime`). */
  const DropTime: int := 600

  /** Where a piece spawns: the top-left corner of its 4×4 box. */
  const SpawnX: int := 4
  const SpawnY: int := -3

  /** The seven shape-use counters, all zero. */
  const NoCounts: seq<nat> := [0, 0, 0, 0, 0, 0, 0]

  datatype Direction = CW | CCW

  /** A decoded key: arrows, space, 'r', 'n', 'q' and "no key this tick". */
  datatype Intent = MoveLeft | MoveRight | HardDrop | SoftDrop | TurnCCW | TurnCW | ForceNext | Quit | NoInput

  /** The choice taken in the game-over menu ('r' or 'q'). */
  datatype MenuChoice = Retry | Exit

  /**
   * What one tick consumes from outside: the key, the elapsed milliseconds,
   * the random kinds drawn by getNextShape (for 'n', and after a lock or a
   * restart) and the game-over menu choice, if the menu is shown.
   */
  datatype TickInput = TickInput(intent: Intent, elapsed: nat, forceRoll: Kind, lockRoll: Kind, choice: MenuChoice)

  /** Position and pattern of the active piece. */
  datatype Pose = Pose(x: int, y: int, shape: Pattern)

  /**
   * The row of a piece at row y after moveShape, with the drop clock at
   * `clock` and `lines` lines cleared: one row down exactly when the clock
   * strictly exceeds the gravity interval 600 - 2 * lines.
   */
  function Gravity(clock: int, lines: int, y: int): (y1: int)
    ensures y1 == y || y1 == y + 1
    ensures y1 == y + 1 <==> clock > DropTime - 2 * lines
  {
    if clock > DropTime - 2 * lines then y + 1 else y
  }

  /** The intents that move the piece and undo the move on collision. */
  predicate Steering(intent: Intent) {
    intent.MoveLeft? || intent.MoveRight? || intent.SoftDrop? || intent.TurnCCW? || intent.TurnCW?
  }

  /** The tentative pose a steering intent produces before the collision test. */
  function Candidate(intent: Intent, pose: Pose): (c: Pose)
    requires IsPattern(pose.shape)
    ensures IsPattern(c.shape)
  {
    match intent
    case MoveLeft => pose.(x := pose.x - 1)
    case MoveRight => pose.(x := pose.x + 1)
    case SoftDrop => pose.(y := pose.y + 1)
    case TurnCCW => pose.(shape := Rotation.RotateCCW(pose.shape))
    case TurnCW => pose.(shape := Rotation.RotateCW(pose.shape))
    case _ => pose
  }

  /**
   * A freshly spawned piece fits the walls and the floor, collides with
   * nothing whatever the grid holds, and would end the game if locked at once.
   */
  lemma SpawnIsFree(g: Grid, k: Kind)
    requires IsGrid(g)
    ensures ColumnsFit(Shape(k), SpawnX) && AboveFloor(Shape(k), SpawnY)
    ensures !CollideAll(g, Shape(k), SpawnX, SpawnY)
    ensures AnyAbove(Shape(k), SpawnY)
  {
    ShapeCells(k);
    var p := Shape(k);
    assert p[1][1] > 0;
    HighPieceNeverCollides(g, p, SpawnX, SpawnY);
  }

  /** The pose of a freshly spawned piece of kind k. */
  function SpawnPose(k: Kind): (pose: Pose) {
    Pose(SpawnX, SpawnY, Shape(k))
  }

  /** The piece is a 4×4 pattern inside the side walls and above the floor. */
  predicate Fits(pose: Pose) {
    IsPattern(pose.shape) && ColumnsFit(pose.shape, pose.x) && AboveFloor(pose.shape, pose.y)
  }

  /**
   * What one phase of a pass leaves: the grid, the piece, the shape
   * counters, the next kind, and whether the loop is to end.
   */
  datatype Outcome = Outcome(grid: Grid, pose: Pose, aggr: seq<nat>, next: Kind, over: bool)

  /**
   * The key switch of `loop` for every key but the up arrow: a steering key
   * takes the candidate pose when it is free and keeps the old one
   * otherwise; 'n' spawns the next kind, counts it and takes `roll` as the
   * new next kind; 'q' asks the loop to end; no key changes nothing.
   */
  function Key(g: Grid, intent: Intent, pose: Pose, aggr: seq<nat>, next: Kind, roll: Kind): (k: Outcome)
    requires IsGrid(g) && Fits(pose) && |aggr| == KindCount
    ensures k.grid == g && Fits(k.pose) && |k.aggr| == KindCount
    ensures k.over <==> intent == Quit
  {
    if Steering(intent) then
      var cand := Candidate(intent, pose);
      Outcome(g, if CollideAll(g, cand.shape, cand.x, cand.y) then pose else cand, aggr, next, false)
    else if intent == ForceNext then
      SpawnIsFree(g, next);
      Outcome(g, SpawnPose(next), aggr[next := aggr[next] + 1], roll, false)
    else
      Outcome(g, pose, aggr, next, intent == Quit)
  }

  /**
   * The row where the up arrow's drop loop stops, for a piece at row y: the
   * first row at or below y such that collideShape fires one row further
   * down. The piece there still lies above the floor.
   */
  function DropRow(g: Grid, p: Pattern, x: int, y: int): (r: int)
    requires IsGrid(g) && IsPattern(p) && HasBlock(p) && ColumnsFit(p, x) && AboveFloor(p, y)
    ensures y <= r && AboveFloor(p, r) && CollideShape(g, p, x, r + 1)
    decreases Height - y
  {
    assert y < Height by {
      var r0, c0 :| 0 <= r0 < 4 && 0 <= c0 < 4 && p[r0][c0] > 0;
    }
    if CollideShape(g, p, x, y + 1) then y else DropRow(g, p, x, y + 1)
  }

  /** Every row the drop passes on its way to DropRow is free. */
  lemma {:induction false} DropRowPassesFreeRows(g: Grid, p: Pattern, x: int, y: int)
    requires IsGrid(g) && IsPattern(p) && HasBlock(p) && ColumnsFit(p, x) && AboveFloor(p, y)
    ensures forall t :: y < t <= DropRow(g, p, x, y) ==> !CollideShape(g, p, x, t)
    decreases Height - y
  {
    assert y < Height by {
      var r0, c0 :| 0 <= r0 < 4 && 0 <= c0 < 4 && p[r0][c0] > 0;
    }
    var r := DropRow(g, p, x, y);
    if !CollideShape(g, p, x, y + 1) {
      var r1 := DropRow(g, p, x, y + 1);
      assert r == r1;
      DropRowPassesFreeRows(g, p, x, y + 1);
      forall t | y < t <= r
        ensures !CollideShape(g, p, x, t)
      {
        if t > y + 1 {
          assert y + 1 < t <= r1;
        }
      }
    }
  }

  /**
   * placeShape followed by what it leads to: when the scan completes, the
   * grid holds the piece and the next kind spawns and is counted; when a
   * cell lies above the field, the menu's quit keeps everything and ends
   * the game, and its retry resets the counters and the grid and spawns.
   */
  function Lock(g: Grid, pose: Pose, aggr: seq<nat>, next: Kind, choice: MenuChoice, roll: Kind): (s: Outcome)
    requires IsGrid(g) && Fits(pose) && |aggr| == KindCount
    ensures IsGrid(s.grid) && Fits(s.pose) && |s.aggr| == KindCount
    ensures s.over ==> choice == Exit
  {
    SpawnIsFree(g, next);
    match Place(g, pose.shape, pose.x, pose.y)
    case Locked(h) => Outcome(h, SpawnPose(next), aggr[next := aggr[next] + 1], roll, false)
    case Overflow(_) =>
      if choice == Exit then Outcome(g, pose, aggr, next, true)
      else Outcome(EmptyGrid(), SpawnPose(next), NoCounts[next := 1], roll, false)
  }

  /** A pose after moveShape: inside the side walls, and above the floor one row higher up. */
  predicate Moved(pose: Pose) {
    IsPattern(pose.shape) && ColumnsFit(pose.shape, pose.x) && AboveFloor(pose.shape, pose.y - 1)
  }

  /**
   * The collision test after moveShape, for a piece at `pose`: a piece that
   * does not touch stays where it is; one that does goes back one row up
   * and is locked.
   */
  function Settle(g: Grid, pose: Pose, aggr: seq<nat>, next: Kind, choice: MenuChoice, roll: Kind): (s: Outcome)
    requires IsGrid(g) && Moved(pose) && |aggr| == KindCount
    ensures IsGrid(s.grid) && Fits(s.pose) && |s.aggr| == KindCount
    ensures s.over ==> choice == Exit
  {
    if CollideShape(g, pose.shape, pose.x, pose.y) then
      Lock(g, pose.(y := pose.y - 1), aggr, next, choice, roll)
    else
      Outcome(g, pose, aggr, next, false)
  }

  /**
   * Locking ends the game exactly when some cell of the piece lies above the
   * field and the menu's choice is quit. A completed lock writes exactly the
   * piece's cells and spawns the next kind; an overflow leaves the grid
   * untouched on quit and empty on retry.
   */
  lemma LockOutcome(g: Grid, pose: Pose, aggr: seq<nat>, next: Kind, choice: MenuChoice, roll: Kind)
    requires IsGrid(g) && Fits(pose) && |aggr| == KindCount
    ensures var s := Lock(g, pose, aggr, next, choice, roll);
      (s.over <==> AnyAbove(pose.shape, pose.y) && choice == Exit) &&
      (AnyAbove(pose.shape, pose.y) ==> s.grid == (if choice == Exit then g else EmptyGrid())) &&
      (!AnyAbove(pose.shape, pose.y) ==>
        s.pose == SpawnPose(next) && s.next == roll && s.aggr == aggr[next := aggr[next] + 1] &&
        forall r, c :: 0 <= r < Height && 0 <= c < Width ==>
          s.grid[r][c] == if 0 <= r - pose.y < 4 && 0 <= c - pose.x < 4 && pose.shape[r - pose.y][c - pose.x] > 0
                          then pose.shape[r - pose.y][c - pose.x] else g[r][c])
  {
    PlaceSpec(g, pose.shape, pose.x, pose.y);
  }

  /**
   * Unless the game ends, gravity and locking leave a piece that collides
   * with nothing: either the falling piece at a free row or a fresh piece at
   * the spawn point.
   */
  lemma SettleLeavesPieceFree(g: Grid, pose: Pose, aggr: seq<nat>, next: Kind, choice: MenuChoice, roll: Kind)
    requires IsGrid(g) && Moved(pose) && |aggr| == KindCount
    ensures var s := Settle(g, pose, aggr, next, choice, roll);
      !s.over ==> !CollideAll(s.grid, s.pose.shape, s.pose.x, s.pose.y)
  {
    var s := Settle(g, pose, aggr, next, choice, roll);
    if !s.over && CollideShape(g, pose.shape, pose.x, pose.y) {
      SpawnIsFree(s.grid, next);
    }
  }

  /** The pattern while the transposing pass stands at outer row i, inner column j. */
  ghost function TransposeStage(o: Pattern, i: int, j: int, r: int, c: int): (v: int)
    requires IsPattern(o) && 0 <= r < 4 && 0 <= c < 4
  {
    if r < i || c < i || (r == i && c < j) || (c == i && i < r < j) then o[c][r] else o[r][c]
  }

  /** The pattern while the clockwise pass stands at outer row i, inner column j: rows above i are done. */
  ghost function ClockwiseStage(o: Pattern, i: int, j: int, r: int, c: int): (v: int)
    requires IsPattern(o) && 0 <= r < 4 && 0 <= c < 4
  {
    if r < i then o[3 - c][r] else TransposeStage(o, i, j, r, c)
  }

  /** Everything one pass of `loop` reads or changes: the game's fields and the active piece. */
  datatype Snapshot = Snapshot(grid: Grid, pose: Pose, aggr: seq<nat>, next: Kind,
                               dropSpeed: int, dropClock: int, runTime: int, lineCount: int)

  /** A state gravity can act on: a 20×10 grid, seven counters and a piece that fits. */
  predicate Framed(s: Snapshot) {
    IsGrid(s.grid) && Fits(s.pose) && |s.aggr| == KindCount
  }

  /** A state a pass can start from: Framed, with a non-empty piece. */
  predicate Playable(s: Snapshot) {
    Framed(s) && HasBlock(s.pose.shape)
  }

  /** The up arrow's pass: drop the piece to DropRow and lock it there; the clocks and lineCount stay. */
  function SlamSpec(s: Snapshot, choice: MenuChoice, roll: Kind): (r: (Snapshot, bool))
    requires Playable(s)
  {
    var o := Lock(s.grid, s.pose.(y := DropRow(s.grid, s.pose.shape, s.pose.x, s.pose.y)), s.aggr, s.next, choice, roll);
    (s.(grid := o.grid, pose := o.pose, aggr := o.aggr, next := o.next), o.over)
  }

  /**
   * The key phase of a pass: the piece, the counters and the next kind
   * become Key's; the flag says whether the key was 'q'.
   */
  function KeySpec(s: Snapshot, input: TickInput): (r: (Snapshot, bool))
    requires Framed(s)
  {
    var k := Key(s.grid, input.intent, s.pose, s.aggr, s.next, input.forceRoll);
    (s.(pose := k.pose, aggr := k.aggr, next := k.next), k.over)
  }

  /**
   * moveShape: the drop speed becomes 600 - 2 × lineCount; when the drop
   * clock exceeds it, the clock restarts and the piece falls one row
   * (Gravity).
   */
  function MoveSpec(s: Snapshot): (t: Snapshot)
  {
    var speed := DropTime - 2 * s.lineCount;
    s.(dropSpeed := speed, dropClock := if s.dropClock > speed then 0 else s.dropClock,
       pose := s.pose.(y := Gravity(s.dropClock, s.lineCount, s.pose.y)))
  }

  /** A state the collision test after moveShape can act on. */
  predicate Landing(s: Snapshot) {
    IsGrid(s.grid) && Moved(s.pose) && |s.aggr| == KindCount
  }

  /** Gravity takes a framed piece at most one row down, so the state after moveShape is Landing. */
  lemma MoveLands(s: Snapshot)
    requires Framed(s)
    ensures Landing(MoveSpec(s)) && MoveSpec(s).pose.y - 1 <= s.pose.y
  {
  }

  /** The collision test after moveShape: the grid, the piece, the counters and the next kind become Settle's. */
  function LandSpec(s: Snapshot, choice: MenuChoice, roll: Kind): (r: (Snapshot, bool))
    requires Landing(s)
  {
    var o := Settle(s.grid, s.pose, s.aggr, s.next, choice, roll);
    (s.(grid := o.grid, pose := o.pose, aggr := o.aggr, next := o.next), o.over)
  }

  /** The gravity phase of a pass: moveShape, then the collision test. The flag is Settle's verdict. */
  function FallSpec(s: Snapshot, choice: MenuChoice, roll: Kind): (r: (Snapshot, bool))
    requires Framed(s)
  {
    MoveLands(s);
    LandSpec(MoveSpec(s), choice, roll)
  }

  /** clearLines at the end of a pass: the grid is Cleared and lineCount grows by the number of full rows. */
  function ClearSpec(s: Snapshot): (t: Snapshot)
    requires IsGrid(s.grid)
  {
    s.(grid := Cleared(s.grid), lineCount := s.lineCount + |FullRows(s.grid)|)
  }

  /**
   * The pass of any other key: the key phase, the gravity phase, then
   * clearLines. The loop is to end when the key was 'q' or the menu's
   * choice was quit.
   */
  function PassSpec(s: Snapshot, input: TickInput): (r: (Snapshot, bool))
    requires Framed(s)
  {
    var a := KeySpec(s, input);
    var b := FallSpec(a.0, input.choice, input.lockRoll);
    (ClearSpec(b.0), a.1 || b.1)
  }

  /** The elapsed time goes onto the drop clock and the run time. */
  function Elapsed(s: Snapshot, elapsed: nat): (t: Snapshot)
  {
    s.(dropClock := s.dropClock + elapsed, runTime := s.runTime + elapsed)
  }

  /** The up arrow's pass or the pass of any other key. */
  function StepSpec(s: Snapshot, input: TickInput): (r: (Snapshot, bool))
    requires Playable(s)
  {
    if input.intent.HardDrop? then SlamSpec(s, input.choice, input.lockRoll) else PassSpec(s, input)
  }

  /** One pass of `loop`: the elapsed time goes onto the clocks, then the key's pass. */
  function TickSpec(s: Snapshot, input: TickInput): (r: (Snapshot, bool))
    requires Playable(s)
  {
    StepSpec(Elapsed(s, input.elapsed), input)
  }

  /**
   * What a pass promises: the run time grows by the elapsed time; the loop
   * ends after a 'q' key and otherwise only by the menu's quit; a hard drop
   * clears no line; any other pass adds exactly the number of full rows to
   * lineCount and leaves no full row and a piece inside the walls.
   */
  lemma TickSpecFacts(s: Snapshot, input: TickInput)
    requires Playable(s)
    ensures var (t, over) := TickSpec(s, input);
      t.runTime == s.runTime + input.elapsed &&
      (input.intent == Quit ==> over) &&
      (over ==> input.intent == Quit || input.choice == Exit) &&
      (input.intent.HardDrop? ==> t.lineCount == s.lineCount && t.dropSpeed == s.dropSpeed) &&
      (!input.intent.HardDrop? ==>
        t.dropSpeed == DropTime - 2 * s.lineCount && t.lineCount >= s.lineCount &&
        IsGrid(t.grid) && Fits(t.pose) && forall r :: 0 <= r < Height ==> !Full(t.grid[r]))
  {
    if !input.intent.HardDrop? {
      var a := KeySpec(Elapsed(s, input.elapsed), input);
      ClearedSpec(FallSpec(a.0, input.choice, input.lockRoll).0.grid);
    }
  }

  /**
   * `states` are the snapshots a run passes through on `inputs`: each is
   * playable and its tick gives the next, `over` is the last tick's verdict
   * (false when there is no tick) and every earlier tick let the loop go on.
   */
  ghost predicate Trace(states: seq<Snapshot>, inputs: seq<TickInput>, over: bool)
    decreases |inputs|
  {
    |states| == |inputs| + 1 &&
    if |inputs| == 0 then !over
    else
      var n := |inputs| - 1;
      Trace(states[..n + 1], inputs[..n], false) &&
      Playable(states[n]) && TickSpec(states[n], inputs[n]) == (states[n + 1], over)
  }

  /** Tick i of a trace: it starts playable, gives the next snapshot, and ends the loop exactly when it is the last tick and `over` holds. */
  lemma {:induction false} TraceAt(states: seq<Snapshot>, inputs: seq<TickInput>, over: bool, i: nat)
    requires Trace(states, inputs, over) && i < |inputs|
    ensures Playable(states[i]) && TickSpec(states[i], inputs[i]) == (states[i + 1], over && i == |inputs| - 1)
    decreases |inputs|
  {
    var n := |inputs| - 1;
    if i < n {
      TraceAt(states[..n + 1], inputs[..n], false, i);
      assert states[..n + 1][i + 1] == states[i + 1];
    }
  }

  /** A trace read tick by tick. */
  lemma TraceSteps(states: seq<Snapshot>, inputs: seq<TickInput>, over: bool)
    requires Trace(states, inputs, over)
    ensures |states| == |inputs| + 1
    ensures forall i :: 0 <= i < |inputs| ==>
      Playable(states[i]) && TickSpec(states[i], inputs[i]) == (states[i + 1], over && i == |inputs| - 1)
  {
    forall i | 0 <= i < |inputs|
      ensures Playable(states[i]) && TickSpec(states[i], inputs[i]) == (states[i + 1], over && i == |inputs| - 1)
    {
      TraceAt(states, inputs, over, i);
    }
  }

  /**
   * How a trace ends: only its last tick can end the loop, and only through
   * a quit key or the menu's quit; no tick before the last has a quit key,
   * and none at all when the loop did not end.
   */
  lemma {:induction false} TraceEnds(states: seq<Snapshot>, inputs: seq<TickInput>, over: bool)
    requires Trace(states, inputs, over)
    ensures over ==> 0 < |inputs| && (inputs[|inputs| - 1].intent == Quit || inputs[|inputs| - 1].choice == Exit)
    ensures forall i :: 0 <= i < |inputs| - 1 ==> inputs[i].intent != Quit
    ensures !over ==> forall i :: 0 <= i < |inputs| ==> inputs[i].intent != Quit
    decreases |inputs|
  {
    if |inputs| > 0 {
      var n := |inputs| - 1;
      TraceEnds(states[..n + 1], inputs[..n], false);
      TickSpecFacts(states[n], inputs[n]);
      assert forall i :: 0 <= i < n ==> inputs[..n][i] == inputs[i];
    }
  }

  /** The active piece (`player`): a position and a 4×4 pattern changed in place. */
  class Player {
    var x: int
    var y: int
    var shape: Pattern

    /**
     * The shape is a 4×4 pattern. The constructor's empty shape does not
     * satisfy this; the first spawn (Load) establishes it.
     */
    ghost predicate Valid()
      reads this
    {
      IsPattern(shape)
    }

    /**
     * The piece before the first spawn. The source leaves x and y unset; the
     * model picks (0, 0), and nothing reads them before the first spawn.
     */
    constructor ()
      ensures x == 0 && y == 0 && shape == []
    {
      x, y, shape := 0, 0, [];
    }

    function State(): (pose: Pose)
      reads this
      ensures pose.x == x && pose.y == y && pose.shape == shape
    {
      Pose(x, y, shape)
    }

    /** Replace the pattern by p: `shape.clear()`, then one `push_back` per row. */
    method Load(p: Pattern)
      requires IsPattern(p)
      modifies this`shape
      ensures shape == p
    {
      shape := [];
      for row := 0 to 4
        invariant shape == p[..row]
      {
        shape := shape + [p[row]];
      }
    }

    /** Exchange two distinct cells (the XOR swap, on distinct cells an ordinary swap). */
    method Swap(r1: int, c1: int, r2: int, c2: int)
      requires Valid() && 0 <= r1 < 4 && 0 <= c1 < 4 && 0 <= r2 < 4 && 0 <= c2 < 4
      requires r1 != r2 || c1 != c2
      modifies this`shape
      ensures Valid()
      ensures shape[r1][c1] == old(shape[r2][c2]) && shape[r2][c2] == old(shape[r1][c1])
      ensures forall r, c :: 0 <= r < 4 && 0 <= c < 4 && (r != r1 || c != c1) && (r != r2 || c != c2) ==>
        shape[r][c] == old(shape[r][c])
    {
      var a, b := shape[r1][c1], shape[r2][c2];
      shape := shape[r1 := shape[r1][c1 := b]];
      shape := shape[r2 := shape[r2][c2 := a]];
    }

    /** Reverse one row in place (`reverse(shape[row].begin(), shape[row].end())`). */
    method ReverseRow(row: int)
      requires Valid() && 0 <= row < 4
      modifies this`shape
      ensures Valid()
      ensures forall c :: 0 <= c < 4 ==> shape[row][c] == old(shape[row][3 - c])
      ensures forall r, c :: 0 <= r < 4 && 0 <= c < 4 && r != row ==> shape[r][c] == old(shape[r][c])
    {
      Swap(row, 0, row, 3);
      Swap(row, 1, row, 2);
    }

    /**
     * `rotate`: a clockwise turn swaps [row][col] with [col][row] over the
     * upper triangle and reverses row `row` in the same pass; a
     * counter-clockwise turn reverses every row, then transposes. The new
     * pattern is the quarter turn of the old one.
     */
    method Rotate(dir: Direction)
      requires Valid()
      modifies this`shape
      ensures Valid()
      ensures dir == CW ==> shape == Rotation.RotateCW(old(shape))
      ensures dir == CCW ==> shape == Rotation.RotateCCW(old(shape))
    {
      ghost var o := shape;
      match dir {
        case CW =>
          for row := 0 to 4
            invariant Valid()
            invariant forall r, c :: 0 <= r < 4 && 0 <= c < 4 ==> shape[r][c] == ClockwiseStage(o, row, row, r, c)
          {
            for col := row to 4
              invariant Valid()
              invariant forall r, c :: 0 <= r < 4 && 0 <= c < 4 ==> shape[r][c] == ClockwiseStage(o, row, col, r, c)
            {
              if row != col {
                Swap(col, row, row, col);
              }
            }
            ReverseRow(row);
          }
          Rotation.CellwiseEqual(shape, Rotation.RotateCW(o));
        case CCW =>
          for row := 0 to 4
            invariant Valid()
            invariant forall r, c :: 0 <= r < row && 0 <= c < 4 ==> shape[r][c] == o[r][3 - c]
            invariant forall r, c :: row <= r < 4 && 0 <= c < 4 ==> shape[r][c] == o[r][c]
          {
            ReverseRow(row);
          }
          ghost var reversed := shape;
          assert reversed == Rotation.ReverseRows(o) by {
            Rotation.CellwiseEqual(reversed, Rotation.ReverseRows(o));
          }
          for row := 0 to 4
            invariant Valid()
            invariant forall r, c :: 0 <= r < 4 && 0 <= c < 4 ==> shape[r][c] == TransposeStage(reversed, row, row, r, c)
          {
            for col := row to 4
              invariant Valid()
              invariant forall r, c :: 0 <= r < 4 && 0 <= c < 4 ==> shape[r][c] == TransposeStage(reversed, row, col, r, c)
            {
              if row != col {
                Swap(col, row, row, col);
              }
            }
          }
          Rotation.CellwiseEqual(shape, Rotation.Transpose(reversed));
          Rotation.CCWIsReverseThenTranspose(o);
      }
    }
  }

  /** The game: playfield, active piece, counters and the gravity clock. */
  class Game {
    var grid: Grid
    var aggr: seq<nat>
    var nextShape: Kind
    var dropSpeed: int
    var dropClock: nat
    var runTime: nat
    var lineCount: nat
    const player: Player

    /** Everything but the floor: shapes and sizes, codes, a non-empty piece inside the side walls. */
    ghost predicate Sound()
      reads this, player
    {
      player.Valid() && IsGrid(grid) && GridCodesOk(grid) && |aggr| == KindCount &&
      CodesOk(player.shape) && HasBlock(player.shape) && ColumnsFit(player.shape, player.x)
    }

    /** Sound, and no cell of the active piece lies below the floor. */
    ghost predicate Valid()
      reads this, player
    {
      Sound() && AboveFloor(player.shape, player.y)
    }

    /** The active piece is the catalogue pattern of kind k at the spawn point. */
    predicate Spawned(k: Kind)
      reads player
    {
      player.x == SpawnX && player.y == SpawnY && player.shape == Shape(k)
    }

    /** The game's state as a value. */
    function Snap(): (s: Snapshot)
      reads this, player
      ensures s.grid == grid && s.pose == player.State() && s.aggr == aggr && s.next == nextShape
      ensures s.dropSpeed == dropSpeed && s.dropClock == dropClock && s.runTime == runTime && s.lineCount == lineCount
    {
      Snapshot(grid, player.State(), aggr, nextShape, dropSpeed, dropClock, runTime, lineCount)
    }

    /**
     * `Game()`: zero counters and clocks, an empty grid, a first random kind
     * as the next piece, then getNextShape. `first` and `second` are the two
     * random kinds drawn. The source's constructor then calls `loop()`
     * (main.cpp:83); that call is modelled by `Run`, which the caller invokes
     * on the new game.
     */
    constructor (first: Kind, second: Kind)
      ensures Valid() && fresh(player)
      ensures grid == EmptyGrid() && aggr == NoCounts[first := 1] && nextShape == second
      ensures Spawned(first)
      ensures dropSpeed == 0 && dropClock == 0 && runTime == 0 && lineCount == 0
    {
      aggr := NoCounts;
      dropSpeed, dropClock, runTime, lineCount := 0, 0, 0, 0;
      grid := [];
      nextShape := first;
      player := new Player();
      new;
      InitGrid();
      GetNextShape(second);
    }

    /** `initGrid`: the grid becomes 20 empty rows. */
    method InitGrid()
      modifies this`grid
      ensures grid == EmptyGrid()
    {
      grid := [];
      for j := 0 to Height
        invariant grid == Zeros(j)
      {
        grid := grid + [EmptyRow];
      }
    }

    /**
     * `initShape`: count one more use of `kind`, put the piece at (x, y) and
     * load the catalogue pattern of `kind`.
     */
    method InitShape(x: int, y: int, kind: Kind)
      requires |aggr| == KindCount
      modifies this`aggr, player`x, player`y, player`shape
      ensures aggr == old(aggr)[kind := old(aggr)[kind] + 1]
      ensures player.x == x && player.y == y && player.shape == Shape(kind)
    {
      aggr := aggr[kind := aggr[kind] + 1];
      player.x := x;
      player.y := y;
      player.Load(Shape(kind));
    }

    /**
     * `getNextShape`: spawn the pre-rolled next kind at (4, -3); `roll` is
     * the new random next kind. Only the spawned kind's counter changes,
     * by one.
     */
    method GetNextShape(roll: Kind)
      requires |aggr| == KindCount
      modifies this`aggr, this`nextShape, player`x, player`y, player`shape
      ensures aggr == old(aggr)[old(nextShape) := old(aggr)[old(nextShape)] + 1]
      ensures Spawned(old(nextShape)) && nextShape == roll
      ensures IsGrid(grid) && GridCodesOk(grid) ==> Valid()
    {
      InitShape(SpawnX, SpawnY, nextShape);
      nextShape := roll;
      if IsGrid(grid) {
        SpawnIsFree(grid, old(nextShape));
      }
    }

    /**
     * `moveShape`: the gravity interval becomes 600 - 2 * lineCount (no lower
     * bound); when the drop clock strictly exceeds it, the clock restarts and
     * the piece falls one row. Nothing else changes.
     */
    method MoveShape()
      modifies this`dropSpeed, this`dropClock, player`y
      ensures dropSpeed == DropTime - 2 * lineCount
      ensures player.y == Gravity(old(dropClock), lineCount, old(player.y))
      ensures dropClock == if old(dropClock) > dropSpeed then 0 else old(dropClock)
      ensures Snap() == MoveSpec(old(Snap()))
    {
      dropSpeed := DropTime - 2 * lineCount;
      if dropClock > dropSpeed {
        dropClock := 0;
        player.y := player.y + 1;
      }
    }

    /**
     * The retry/quit branches of `onGameOver`. Quit changes nothing and ends
     * the game. Retry zeroes the seven counters, empties the grid and spawns
     * the next piece; it keeps lineCount, runTime and the drop clock.
     */
    method OnGameOver(choice: MenuChoice, roll: Kind) returns (gameover: bool)
      requires Valid()
      modifies this`aggr, this`grid, this`nextShape, player`x, player`y, player`shape
      ensures Valid()
      ensures gameover <==> choice == Exit
      ensures choice == Exit ==>
        grid == old(grid) && aggr == old(aggr) && nextShape == old(nextShape) && player.State() == old(player.State())
      ensures choice == Retry ==>
        grid == EmptyGrid() && aggr == NoCounts[old(nextShape) := 1] && Spawned(old(nextShape)) && nextShape == roll
    {
      match choice {
        case Exit =>
          gameover := true;
        case Retry =>
          gameover := false;
          aggr := NoCounts;
          InitGrid();
          GetNextShape(roll);
      }
    }

    /**
     * `placeShape`: scan the piece's cells row by row and write each
     * non-empty one into the grid; the first one above the field aborts with
     * the game-over menu instead. A completed scan spawns the next piece.
     * The new grid, piece, counters and next kind are those of Lock.
     */
    method PlaceShape(choice: MenuChoice, roll: Kind) returns (gameover: bool)
      requires Valid()
      modifies this`aggr, this`grid, this`nextShape, player`x, player`y, player`shape
      ensures Valid()
      ensures var s := Lock(old(grid), old(player.State()), old(aggr), old(nextShape), choice, roll);
        grid == s.grid && player.State() == s.pose && aggr == s.aggr && nextShape == s.next && gameover == s.over
    {
      ghost var g0 := grid;
      var above := WritePiece(player.shape, player.x, player.y);
      if above {
        PlaceSpec(g0, player.shape, player.x, player.y);
        gameover := OnGameOver(choice, roll);
      } else {
        PlaceKeepsCodes(g0, player.shape, player.x, player.y);
        GetNextShape(roll);
        gameover := false;
      }
    }

    /**
     * The scan of placeShape: for each non-empty cell of p, in row-major
     * order, stop and report it when its world row is above the field, or
     * write its code into the grid. The outcome is that of Place.
     */
    method WritePiece(p: Pattern, x: int, y: int) returns (above: bool)
      requires IsGrid(grid) && IsPattern(p) && ColumnsFit(p, x) && AboveFloor(p, y)
      modifies this`grid
      ensures above <==> Place(old(grid), p, x, y).Overflow?
      ensures grid == Place(old(grid), p, x, y).grid
    {
      ghost var g0 := grid;
      for row := 0 to 4
        invariant IsGrid(grid)
        invariant PlaceFrom(grid, p, x, y, row, 0) == Place(g0, p, x, y)
      {
        for col := 0 to 4
          invariant IsGrid(grid)
          invariant PlaceFrom(grid, p, x, y, row, col) == Place(g0, p, x, y)
        {
          if p[row][col] > 0 {
            var r := row + y;
            var c := col + x;
            if r < 0 {
              return true;
            } else {
              assert PlaceFrom(grid, p, x, y, row, col) == PlaceFrom(Write(grid, r, c, p[row][col]), p, x, y, row, col + 1);
              grid := grid[r := grid[r][c := p[row][col]]];
            }
          } else {
            assert PlaceFrom(grid, p, x, y, row, col) == PlaceFrom(grid, p, x, y, row, col + 1);
          }
        }
        assert PlaceFrom(grid, p, x, y, row, 4) == PlaceFrom(grid, p, x, y, row + 1, 0);
      }
      above := false;
    }

    /** The first loop of clearLines: the indices of the full rows, in ascending order. */
    method FindFullRows() returns (cleared: seq<int>)
      ensures cleared == FullRows(grid)
    {
      cleared := [];
      for row := 0 to |grid|
        invariant cleared == FullRowsUpTo(grid, row)
      {
        if Full(grid[row]) {
          cleared := cleared + [row];
        }
      }
    }

    /**
     * The erase loop of clearLines: erase the first full row, again and again
     * until no row is full. What is left is the non-full rows in order.
     */
    method EraseFullRows()
      modifies this`grid
      ensures grid == NonFull(old(grid))
    {
      ghost var g0 := grid;
      while true
        invariant NonFull(grid) == NonFull(g0)
        decreases |grid|
      {
        var clearedRows := false;
        var row := 0;
        while row < |grid|
          invariant 0 <= row <= |grid| && !clearedRows
          invariant forall i :: 0 <= i < row ==> !Full(grid[i])
        {
          if Full(grid[row]) {
            EraseFull(grid, row);
            grid := grid[..row] + grid[row + 1..];
            clearedRows := true;
            break;
          }
          row := row + 1;
        }
        if !clearedRows {
          break;
        }
      }
      NoFullIsFixed(grid);
    }

    /** The insert loop of clearLines: k empty rows go in at the top. */
    method InsertEmptyRows(k: nat)
      modifies this`grid
      ensures grid == Zeros(k) + old(grid)
    {
      ghost var g0 := grid;
      for i := 0 to k
        invariant grid == Zeros(i) + g0
      {
        ZerosGrow(i);
        grid := [EmptyRow] + grid;
      }
    }

    /**
     * `clearLines`: count the full rows; when there are any, erase them and
     * insert as many empty rows at the top. Returns the count.
     */
    method ClearLines() returns (clearedCount: nat)
      requires IsGrid(grid)
      modifies this`grid
      ensures grid == Cleared(old(grid)) && clearedCount == |FullRows(old(grid))|
    {
      var cleared := FindFullRows();
      clearedCount := |cleared|;
      if clearedCount > 0 {
        EraseFullRows();
        InsertEmptyRows(clearedCount);
      } else {
        NoFullIsFixed(grid);
        assert grid == Zeros(0) + NonFull(grid);
      }
    }

    /**
     * One arrow key: move the piece by (dx, dy) and move it back when the
     * moved piece collides (collideAll, on the piece's own pattern).
     */
    method Shift(intent: Intent, dx: int, dy: int)
      requires Valid() && intent in {MoveLeft, MoveRight, SoftDrop}
      requires dx == (if intent == MoveLeft then -1 else if intent == MoveRight then 1 else 0)
      requires dy == (if intent == SoftDrop then 1 else 0)
      modifies player`x, player`y
      ensures Valid()
      ensures var cand := Candidate(intent, old(player.State()));
        player.State() == if CollideAll(grid, cand.shape, cand.x, cand.y) then old(player.State()) else cand
    {
      player.x, player.y := player.x + dx, player.y + dy;
      if CollideAll(grid, player.shape, player.x, player.y) {
        player.x, player.y := player.x - dx, player.y - dy;
      }
    }

    /**
     * The two turning keys: turn the piece in direction `dir` and turn it
     * back when the turned piece collides.
     */
    method Turn(intent: Intent, dir: Direction)
      requires Valid() && intent in {TurnCCW, TurnCW} && (dir == CW <==> intent == TurnCW)
      modifies player`shape
      ensures Valid()
      ensures var cand := Candidate(intent, old(player.State()));
        player.State() == if CollideAll(grid, cand.shape, cand.x, cand.y) then old(player.State()) else cand
    {
      ghost var before := player.shape;
      Rotation.TurnsKeepCodes(before);
      match dir {
        case CW =>
          player.Rotate(CW);
          if CollideAll(grid, player.shape, player.x, player.y) {
            player.Rotate(CCW);
            Rotation.CCWUndoesCW(before);
          }
        case CCW =>
          player.Rotate(CCW);
          if CollideAll(grid, player.shape, player.x, player.y) {
            player.Rotate(CW);
            Rotation.CWUndoesCCW(before);
          }
      }
    }

    /**
     * The five steering keys of the loop's switch. The piece ends at the
     * candidate pose when that one is free, and exactly where it was
     * otherwise.
     */
    method Steer(intent: Intent)
      requires Valid() && Steering(intent)
      modifies player`x, player`y, player`shape
      ensures Valid()
      ensures var cand := Candidate(intent, old(player.State()));
        player.State() == if CollideAll(grid, cand.shape, cand.x, cand.y) then old(player.State()) else cand
    {
      match intent {
        case MoveLeft => Shift(intent, -1, 0);
        case MoveRight => Shift(intent, 1, 0);
        case SoftDrop => Shift(intent, 0, 1);
        case TurnCCW => Turn(intent, CCW);
        case TurnCW => Turn(intent, CW);
      }
    }

    /**
     * The drop loop of the up-arrow key: move the piece down until
     * collideShape fires, then one row back. It stops at DropRow.
     */
    method HardDrop()
      requires Valid()
      modifies player`y
      ensures Valid()
      ensures player.y == DropRow(grid, player.shape, player.x, old(player.y))
    {
      ghost var target := DropRow(grid, player.shape, player.x, player.y);
      var p := player.shape;
      var r, c :| 0 <= r < 4 && 0 <= c < 4 && p[r][c] > 0;
      while true
        invariant Valid() && DropRow(grid, p, player.x, player.y) == target
        decreases Height - player.y
      {
        player.y := player.y + 1;
        if CollideShape(grid, p, player.x, player.y) {
          player.y := player.y - 1;
          break;
        }
      }
    }

    /**
     * The key switch of `loop`, for every key but the hard drop: steer the
     * piece, spawn the next one ('n'), or ask to quit ('q'), as Key says.
     */
    method React(input: TickInput) returns (quit: bool)
      requires Valid() && !input.intent.HardDrop?
      modifies this`aggr, this`nextShape, player`x, player`y, player`shape
      ensures Valid()
      ensures quit <==> input.intent == Quit
      ensures (Snap(), quit) == KeySpec(old(Snap()), input)
    {
      quit := false;
      if Steering(input.intent) {
        Steer(input.intent);
      } else if input.intent == ForceNext {
        GetNextShape(input.forceRoll);
      } else {
        quit := input.intent == Quit;
      }
    }

    /**
     * Gravity and locking, the part of one pass of `loop` between the key and
     * the line clear: moveShape, then, when the piece now touches locked cells
     * or the floor, one row back up and placeShape. The whole new state is
     * FallSpec's.
     */
    method Fall(choice: MenuChoice, roll: Kind) returns (gameover: bool)
      requires Valid()
      modifies this`dropSpeed, this`dropClock, this`aggr, this`grid, this`nextShape, player
      ensures Valid()
      ensures (Snap(), gameover) == FallSpec(old(Snap()), choice, roll)
    {
      MoveLands(Snap());
      MoveShape();
      gameover := Land(choice, roll);
    }

    /**
     * The collision test after moveShape: when the piece now touches locked
     * cells or the floor, one row back up and placeShape.
     */
    method Land(choice: MenuChoice, roll: Kind) returns (gameover: bool)
      requires Sound() && AboveFloor(player.shape, player.y - 1)
      modifies this`aggr, this`grid, this`nextShape, player`x, player`y, player`shape
      ensures Valid()
      ensures (Snap(), gameover) == LandSpec(old(Snap()), choice, roll)
    {
      gameover := false;
      if CollideShape(grid, player.shape, player.x, player.y) {
        player.y := player.y - 1;
        gameover := PlaceShape(choice, roll);
      }
    }

    /** The up arrow's pass: drop the piece to DropRow and lock it there. */
    method Slam(choice: MenuChoice, roll: Kind) returns (gameover: bool)
      requires Valid()
      modifies this`aggr, this`grid, this`nextShape, player`x, player`y, player`shape
      ensures Valid()
      ensures (Snap(), gameover) == SlamSpec(old(Snap()), choice, roll)
    {
      HardDrop();
      gameover := PlaceShape(choice, roll);
    }

    /**
     * A pass for any other key: React, then Fall, then clearLines, whose
     * count is added to lineCount.
     */
    method Pass(input: TickInput) returns (gameover: bool)
      requires Valid() && !input.intent.HardDrop?
      modifies this, player
      ensures Valid()
      ensures (Snap(), gameover) == PassSpec(old(Snap()), input)
    {
      var quit := React(input);
      var over := Fall(input.choice, input.lockRoll);
      ClearAndCount();
      gameover := quit || over;
    }

    /** `lineCount += clearLines()` at the end of a pass. */
    method ClearAndCount()
      requires Valid()
      modifies this`grid, this`lineCount
      ensures Valid()
      ensures Snap() == ClearSpec(old(Snap()))
    {
      ClearedSpec(grid);
      ClearedKeepsCodes(grid);
      var cleared := ClearLines();
      lineCount := lineCount + cleared;
    }

    /** The time bookkeeping at the top of `loop`: the elapsed time goes onto the drop clock and the run time. */
    method AddElapsed(elapsed: nat)
      modifies this`dropClock, this`runTime
      ensures Snap() == Elapsed(old(Snap()), elapsed)
    {
      dropClock := dropClock + elapsed;
      runTime := runTime + elapsed;
    }

    /** The up arrow's pass or the pass of any other key, as StepSpec says. */
    method Step(input: TickInput) returns (gameover: bool)
      requires Valid()
      modifies this, player
      ensures Valid()
      ensures (Snap(), gameover) == StepSpec(old(Snap()), input)
    {
      if input.intent.HardDrop? {
        gameover := Slam(input.choice, input.lockRoll);
      } else {
        gameover := Pass(input);
      }
    }

    /**
     * One pass of `loop`: add the elapsed time to the drop clock and the run
     * time, then run the up arrow's pass or the pass of any other key. The
     * new state and the verdict are TickSpec's.
     */
    method Tick(input: TickInput) returns (gameover: bool)
      requires Valid()
      modifies this, player
      ensures Valid()
      ensures (Snap(), gameover) == TickSpec(old(Snap()), input)
      ensures input.intent == Quit ==> gameover
      ensures gameover ==> input.intent == Quit || input.choice == Exit
    {
      ghost var s0 := Snap();
      AddElapsed(input.elapsed);
      gameover := Step(input);
      TickSpecFacts(s0, input);
    }

    /** Tick number `ticks` of a run, which extends the trace of the ticks before it by one state. */
    method Advance(inputs: seq<TickInput>, ticks: nat, ghost states: seq<Snapshot>) returns (gameover: bool, ghost next: seq<Snapshot>)
      requires Valid() && ticks < |inputs|
      requires Trace(states, inputs[..ticks], false) && states[ticks] == Snap()
      modifies this, player
      ensures Valid() && Trace(next, inputs[..ticks + 1], gameover)
      ensures next[0] == states[0] && next[ticks + 1] == Snap()
    {
      gameover := Tick(inputs[ticks]);
      next := states + [Snap()];
      assert next[..ticks + 1] == states && inputs[..ticks + 1][..ticks] == inputs[..ticks];
    }

    /**
     * `loop`: run ticks until one of them ends the game or the inputs run
     * out. The game ends only through a quit key or the menu's quit, and no
     * tick runs after the first quit key. `states` are the snapshots passed
     * through, from the start state to the final one, each tick's result
     * being TickSpec of the one before (see TraceSteps).
     */
    method Run(inputs: seq<TickInput>) returns (ticks: nat, gameover: bool, ghost states: seq<Snapshot>)
      requires Valid()
      modifies this, player
      ensures Valid() && ticks <= |inputs|
      ensures !gameover ==> ticks == |inputs|
      ensures gameover ==> 0 < ticks && (inputs[ticks - 1].intent == Quit || inputs[ticks - 1].choice == Exit)
      ensures forall i :: 0 <= i < ticks - 1 ==> inputs[i].intent != Quit
      ensures !gameover ==> forall i :: 0 <= i < |inputs| ==> inputs[i].intent != Quit
      ensures Trace(states, inputs[..ticks], gameover) && states[0] == old(Snap()) && states[ticks] == Snap()
    {
      ticks, gameover := 0, false;
      states := [Snap()];
      while !gameover && ticks < |inputs|
        invariant Valid() && ticks <= |inputs|
        invariant Trace(states, inputs[..ticks], gameover) && states[0] == old(Snap()) && states[ticks] == Snap()
      {
        gameover, states := Advance(inputs, ticks, states);
        ticks := ticks + 1;
      }
      TraceEnds(states, inputs[..ticks], gameover);
      assert forall i :: 0 <= i < ticks ==> inputs[..ticks][i] == inputs[i];
    }
  }
}
