/** The game session: the active and buffered pieces, the board and the counters, and
    the operations the input handler and the frame loop perform on them. */
module Tetris {
  import opened Options
  import opened Grid
  import opened Shapes
  import opened Collision
  import Lock
  import opened Sweep

  /** A piece: its current matrix and the non-zero id it leaves in the board cells
      (the source stores its colour there). */
  datatype Piece = Piece(shape: Shape, id: Cell)

  /** The session state; (x, y) is the board position of the active piece's top-left corner. */
  datatype Game = Game(
    board: Board,
    stats: Stats,
    running: bool,
    paused: bool,
    dropTime: int,
    current: Option<Piece>,
    next: Option<Piece>,
    x: int,
    y: int)

  predicate PieceOk(p: Piece)
  {
    ShapeOk(p.shape) && p.id != 0
  }

  /** The state invariant: fixed board size and no complete row left on it, consistent
      counters, a buffered piece exactly as drawn, an active piece that is a drawn piece
      turned fewer than four times, inside the walls and, while the game runs, clear of
      every settled cell. */
  predicate Valid(g: Game)
  {
    && WellFormed(g.board)
    && Settled(g.board)
    && StatsOk(g.stats)
    && (g.current.Some? ==>
          && PieceOk(g.current.value)
          && Turned(g.current.value)
          && Fits(g.current.value.shape, g.x, g.y)
          && (g.running ==> !Collides(g.current.value.shape, g.x, g.y, g.board)))
    && (g.next.Some? ==> Drawn(g.next.value))
  }

  /** The piece the random draw `k` produces. */
  function NewPiece(k: ShapeIndex): (p: Piece)
    ensures PieceOk(p)
    ensures p.shape == Catalog[k]
  {
    CatalogOk(k);
    Piece(Catalog[k], k + 1)
  }

  /** A piece as a draw produces it: an unturned catalog shape with its id. */
  predicate Drawn(p: Piece)
  {
    exists k: ShapeIndex :: p == NewPiece(k)
  }

  /** A drawn piece after fewer than four clockwise turns. */
  predicate Turned(p: Piece)
  {
    exists k: ShapeIndex, n: nat | n < 4 && ShapeOk(Catalog[k]) :: p == Piece(Turns(Catalog[k], n), k + 1)
  }

  /** A drawn piece is a tight box of at most 4x4, turned zero times. */
  lemma DrawnTurned(p: Piece)
    requires Drawn(p)
    ensures PieceOk(p)
    ensures Turned(p)
  {
    var k: ShapeIndex :| p == NewPiece(k);
    CatalogOk(k);
    assert p == Piece(Turns(Catalog[k], 0), k + 1);
  }

  /** Turning a turned piece gives a turned piece: rotation never leaves the four
      orientations of the catalog shape the piece was drawn with, and keeps its id. */
  lemma RotateTurned(p: Piece)
    requires Turned(p)
    ensures Turned(p.(shape := Rotate(p.shape)))
  {
    var k: ShapeIndex, n: nat :| n < 4 && ShapeOk(Catalog[k]) && p == Piece(Turns(Catalog[k], n), k + 1);
    TurnsCycle(Catalog[k], n);
    var n' := if n == 3 then 0 else n + 1;
    assert p.(shape := Rotate(p.shape)) == Piece(Turns(Catalog[k], n'), k + 1);
  }

  /** The state after a reset (and, with the position at 0, after construction). */
  function Reset(g: Game): (r: Game)
    ensures Valid(r)
    ensures !r.running && !r.paused
    ensures r.current.None? && r.next.None?
    ensures r.dropTime == 0
    ensures r.x == g.x && r.y == g.y
    ensures r.stats == InitialStats
    ensures forall row, col | 0 <= row < Height && 0 <= col < Width :: r.board[row][col] == 0
  {
    InitialStatsOk();
    Game(EmptyBoard(), InitialStats, false, false, 0, None, None, g.x, g.y)
  }

  /** The piece a spawn promotes: the buffered one, or a fresh draw when none is buffered. */
  function Promoted(g: Game, first: ShapeIndex): Piece
  {
    if g.next.Some? then g.next.value else NewPiece(first)
  }

  /** The column a spawned shape starts at: the board's half width minus the shape's half
      width, both rounded down. */
  function SpawnColumn(s: Shape): int
    requires |s| > 0
  {
    Width / 2 - |s[0]| / 2
  }

  /** Promote the buffered piece (drawing one first when there is none), buffer a new
      draw, place the promoted piece at the top centre, and stop the game when it
      collides there. `first` is used only when nothing is buffered. */
  function Spawn(g: Game, first: ShapeIndex, second: ShapeIndex): (r: Game)
    requires WellFormed(g.board)
    requires g.next.Some? ==> Drawn(g.next.value)
    ensures r.current == Some(Promoted(g, first))
    ensures r.next == Some(NewPiece(second))
    ensures r.y == 0
    ensures r.x == SpawnColumn(r.current.value.shape)
    ensures r.running <==> g.running && !Collides(r.current.value.shape, r.x, r.y, g.board)
    ensures Fits(r.current.value.shape, r.x, r.y)
    ensures r.board == g.board && r.stats == g.stats
    ensures r.paused == g.paused && r.dropTime == g.dropTime
    ensures Settled(g.board) && StatsOk(g.stats) ==> Valid(r)
  {
    var p := Promoted(g, first);
    assert Drawn(p);
    DrawnTurned(p);
    var x := SpawnColumn(p.shape);
    var spawned := g.(current := Some(p), next := Some(NewPiece(second)), x := x, y := 0);
    if Collides(p.shape, x, 0, g.board) then spawned.(running := false) else spawned
  }

  /** Whether a spawn leaves the game running, in terms of the state before it. */
  lemma SpawnRunning(g: Game, first: ShapeIndex, second: ShapeIndex)
    requires WellFormed(g.board)
    requires g.next.Some? ==> Drawn(g.next.value)
    ensures Spawn(g, first, second).running <==>
      g.running && !Collides(Promoted(g, first).shape, SpawnColumn(Promoted(g, first).shape), 0, g.board)
  {
  }

  /** Spawning onto a top row that is taken across the spawned piece's columns ends the
      game, and the board and counters stay as they were. */
  lemma SpawnOntoFilledTopEndsGame(g: Game, first: ShapeIndex, second: ShapeIndex)
    requires WellFormed(g.board)
    requires g.next.Some? ==> Drawn(g.next.value)
    requires var p := Promoted(g, first);
      |p.shape| > 0 && var x := SpawnColumn(p.shape);
      forall c | x <= c < x + |p.shape[0]| :: g.board[0][c] != 0
    ensures !Spawn(g, first, second).running
    ensures Spawn(g, first, second).board == g.board && Spawn(g, first, second).stats == g.stats
  {
  }

  /** Merge the active piece into the board, clear the completed rows, credit them and
      spawn the next piece. */
  function LockPiece(g: Game, first: ShapeIndex, second: ShapeIndex): (r: Game)
    requires Valid(g)
    requires g.current.Some?
    ensures Valid(r)
    ensures var p := g.current.value;
      var merged := Lock.Stamp(g.board, p.shape, g.x, g.y, p.id);
      && r.board == Swept(merged)
      && r.stats == Credit(g.stats, CountFull(merged))
    ensures g.stats.lines <= r.stats.lines <= g.stats.lines + |g.current.value.shape|
    ensures r.current == Some(Promoted(g, first)) && r.next == Some(NewPiece(second))
    ensures r.y == 0 && r.x == SpawnColumn(r.current.value.shape)
    ensures r.running <==> g.running && !Collides(r.current.value.shape, r.x, 0, r.board)
    ensures r.paused == g.paused && r.dropTime == g.dropTime
  {
    var p := g.current.value;
    var merged := Lock.Stamp(g.board, p.shape, g.x, g.y, p.id);
    var n := CountFull(merged);
    ClearedAtMostPieceHeight(g.board, p.shape, g.x, g.y, p.id);
    SweptShape(merged);
    CreditKeepsStats(g.stats, n);
    Spawn(g.(board := Swept(merged), stats := Credit(g.stats, n)), first, second)
  }

  /** Putting the active piece at a free position keeps the invariant. */
  lemma ShiftValid(g: Game, x: int, y: int)
    requires Valid(g)
    requires g.current.Some?
    requires !Collides(g.current.value.shape, x, y, g.board)
    ensures Valid(g.(x := x, y := y))
  {
  }

  /** Try to translate the active piece by (dx, dy). The move is committed exactly when the
      target does not collide; a refused downward move locks the piece. */
  function Move(g: Game, dx: int, dy: int, first: ShapeIndex, second: ShapeIndex): (r: (Game, bool))
    requires Valid(g)
    ensures Valid(r.0)
    ensures r.1 <==> g.current.Some? && !Collides(g.current.value.shape, g.x + dx, g.y + dy, g.board)
    ensures r.1 ==> r.0 == g.(x := g.x + dx, y := g.y + dy)
    ensures !r.1 && dy > 0 && g.current.Some? ==> r.0 == LockPiece(g, first, second)
    ensures !r.1 && !(dy > 0 && g.current.Some?) ==> r.0 == g
  {
    if g.current.None? then (g, false)
    else if !Collides(g.current.value.shape, g.x + dx, g.y + dy, g.board) then
      ShiftValid(g, g.x + dx, g.y + dy);
      (g.(x := g.x + dx, y := g.y + dy), true)
    else if dy > 0 then (LockPiece(g, first, second), false)
    else (g, false)
  }

  /** Replace the active shape by its clockwise rotation when that does not collide at
      the unchanged position; there is no kick search. */
  function RotatePiece(g: Game): (r: Game)
    requires Valid(g)
    ensures Valid(r)
    ensures r.(current := g.current) == g
    ensures g.current.None? ==> r == g
    ensures g.current.Some? ==>
      var p := g.current.value;
      var turned := Rotate(p.shape);
      if Collides(turned, g.x, g.y, g.board) then r == g
      else r.current == Some(p.(shape := turned))
  {
    if g.current.None? then g
    else
      var p := g.current.value;
      var turned := Rotate(p.shape);
      if !Collides(turned, g.x, g.y, g.board) then
        RotateShapeOk(p.shape);
        RotateTurned(p);
        FreeFits(turned, g.x, g.y, g.board);
        g.(current := Some(p.(shape := turned)))
      else g
  }

  /** The row where shape `s`, starting at (x, y), comes to rest: the downward move is
      repeated while the next row is free. Every row passed through is free, the one
      below the landing row is not. */
  function Landing(s: Shape, x: int, y: int, b: Board): (land: int)
    requires WellFormed(b)
    requires ShapeOk(s)
    requires Fits(s, x, y)
    ensures y <= land
    ensures forall y' | y < y' <= land :: !Collides(s, x, y', b)
    ensures Collides(s, x, land + 1, b)
    decreases Height - y
  {
    FitsBox(s, x, y);
    if Collides(s, x, y + 1, b) then y
    else
      FreeFits(s, x, y + 1, b);
      Landing(s, x, y + 1, b)
  }

  /** The active piece moved down to its landing row still satisfies the invariant. */
  lemma LandingValid(g: Game)
    requires Valid(g)
    requires g.current.Some?
    ensures Valid(g.(y := Landing(g.current.value.shape, g.x, g.y, g.board)))
  {
    var s := g.current.value.shape;
    var land := Landing(s, g.x, g.y, g.board);
    if land > g.y {
      FreeFits(s, g.x, land, g.board);
    }
  }

  /** Hard drop: the downward moves of the source's `while (movePiece(0, 1)) {}` commit
      the piece row by row down to its landing row, where the final refused move locks
      it. */
  function DropToBottom(g: Game, first: ShapeIndex, second: ShapeIndex): (r: Game)
    requires Valid(g)
    ensures Valid(r)
    ensures g.current.None? ==> r == g
  {
    if g.current.None? then g
    else
      LandingValid(g);
      LockPiece(g.(y := Landing(g.current.value.shape, g.x, g.y, g.board)), first, second)
  }

  /** The hard drop follows the source's loop `while (movePiece(0, 1)) {}`: when the
      downward move is committed, the drop continues from the moved state ... */
  lemma DropAfterCommittedMove(g: Game, first: ShapeIndex, second: ShapeIndex)
    requires Valid(g)
    requires Move(g, 0, 1, first, second).1
    ensures DropToBottom(g, first, second) == DropToBottom(Move(g, 0, 1, first, second).0, first, second)
  {
    var s := g.current.value.shape;
    FitsBox(s, g.x, g.y);
    FreeFits(s, g.x, g.y + 1, g.board);
    var land := Landing(s, g.x, g.y, g.board);
    var g' := g.(y := g.y + 1);
    assert Landing(s, g.x, g'.y, g.board) == land;
    assert g'.(y := land) == g.(y := land);
  }

  /** ... and when it is refused, the drop is that refused move, which locked the piece. */
  lemma DropEndsWithRefusedMove(g: Game, first: ShapeIndex, second: ShapeIndex)
    requires Valid(g)
    requires g.current.Some?
    requires !Move(g, 0, 1, first, second).1
    ensures DropToBottom(g, first, second) == Move(g, 0, 1, first, second).0
  {
  }

  /** On a board with no settled cells, a hard drop lands the piece with its bottom row
      on the last board row. */
  lemma HardDropOnEmptyBoard(g: Game)
    requires Valid(g)
    requires g.current.Some?
    requires forall row, col | 0 <= row < Height && 0 <= col < Width :: g.board[row][col] == 0
    ensures Landing(g.current.value.shape, g.x, g.y, g.board) + |g.current.value.shape| == Height
  {
    var s := g.current.value.shape;
    var land := Landing(s, g.x, g.y, g.board);
    FitsBox(s, g.x, g.y);
    CollidesOnEmpty(s, g.x, land + 1, g.board);
    if land > g.y {
      CollidesOnEmpty(s, g.x, land, g.board);
    }
  }

  /** One frame of the game loop at host time `now`: when running, not paused and more
      than the drop interval has passed since the last automatic drop, move down once. */
  function Tick(g: Game, now: int, first: ShapeIndex, second: ShapeIndex): (r: Game)
    requires Valid(g)
    ensures Valid(r)
    ensures !g.running || g.paused || now - g.dropTime <= g.stats.dropInterval ==> r == g
    ensures g.running && !g.paused && now - g.dropTime > g.stats.dropInterval ==>
      r == Move(g, 0, 1, first, second).0.(dropTime := now)
  {
    if !g.running || g.paused then g
    else if now - g.dropTime > g.stats.dropInterval then
      Move(g, 0, 1, first, second).0.(dropTime := now)
    else g
  }

  /** The spawns of a start: run unpaused and spawn twice, which fills both the active and
      the buffered slot. The board and the counters are not cleared. */
  function Launch(g: Game, a: ShapeIndex, b: ShapeIndex, c: ShapeIndex): (r: Game)
    requires Valid(g)
    ensures Valid(r)
    ensures r.current == Some(NewPiece(b)) && r.next == Some(NewPiece(c))
    ensures r.x == SpawnColumn(NewPiece(b).shape) && r.y == 0 && !r.paused
    ensures var p, pb := Promoted(g, a), NewPiece(b);
      r.running <==>
        && !Collides(p.shape, SpawnColumn(p.shape), 0, g.board)
        && !Collides(pb.shape, SpawnColumn(pb.shape), 0, g.board)
    ensures r.board == g.board && r.stats == g.stats && r.dropTime == g.dropTime
  {
    var started := g.(running := true, paused := false);
    var first := Spawn(started, a, b);
    SpawnRunning(started, a, b);
    SpawnRunning(first, a, c);
    Spawn(first, a, c)
  }

  /** Start at host time `now`: a no-op while running; otherwise the spawns of `Launch`
      followed at once by one frame of the game loop, which moves the new piece down when
      more than the drop interval has passed since the last automatic drop. `d` is the
      draw a lock in that frame would buffer. */
  function Start(g: Game, now: int, a: ShapeIndex, b: ShapeIndex, c: ShapeIndex, d: ShapeIndex): (r: Game)
    requires Valid(g)
    ensures Valid(r)
    ensures g.running ==> r == g
    ensures var l := Launch(g, a, b, c);
      !g.running && (!l.running || now - g.dropTime <= g.stats.dropInterval) ==> r == l
    ensures var l := Launch(g, a, b, c);
      !g.running && l.running && now - g.dropTime > g.stats.dropInterval ==>
        r == Move(l, 0, 1, a, d).0.(dropTime := now)
  {
    if g.running then g
    else Tick(Launch(g, a, b, c), now, a, d)
  }

  /** The first start after a reset (drop time 0, interval 1000 ms) at any time past
      1000 ms moves the new piece down one row at once, onto the still empty board. Dafny
      finds the proof alone; the steps below only keep it cheap on every solver seed. */
  lemma StartAfterResetDropsAtOnce(g: Game, now: int, a: ShapeIndex, b: ShapeIndex, c: ShapeIndex, d: ShapeIndex)
    requires now > 1000
    ensures var r := Start(Reset(g), now, a, b, c, d);
      && r.running
      && r.current == Some(NewPiece(b))
      && r.y == 1
      && r.dropTime == now
      && r.board == EmptyBoard()
  {
    var l := Launch(Reset(g), a, b, c);
    var s := l.current.value.shape;
    CatalogOk(b);
    FitsBox(s, l.x, 0);
    CollidesOnEmpty(s, l.x, 0, l.board);
    CollidesOnEmpty(s, l.x, 1, l.board);
  }

  /** Pause toggling at host time `now`; a no-op unless the game is running. Resuming runs
      one frame of the game loop at once. */
  function TogglePause(g: Game, now: int, first: ShapeIndex, second: ShapeIndex): (r: Game)
    requires Valid(g)
    ensures Valid(r)
    ensures !g.running ==> r == g
    ensures g.running && !g.paused ==> r == g.(paused := true)
    ensures g.running && g.paused && now - g.dropTime <= g.stats.dropInterval ==>
      r == g.(paused := false)
    ensures g.running && g.paused && now - g.dropTime > g.stats.dropInterval ==>
      r == Move(g.(paused := false), 0, 1, first, second).0.(dropTime := now)
  {
    if !g.running then g
    else if !g.paused then g.(paused := true)
    else Tick(g.(paused := false), now, first, second)
  }

  /** Pausing and resuming within the drop interval gives the state back unchanged. */
  lemma PauseResume(g: Game, now: int, first: ShapeIndex, second: ShapeIndex)
    requires Valid(g)
    requires g.running && !g.paused
    requires now - g.dropTime <= g.stats.dropInterval
    ensures TogglePause(TogglePause(g, now, first, second), now, first, second) == g
  {
  }

  datatype Key = Left | Right | Down | Up | Space | Other

  /** Key dispatch: every key is ignored unless the game is running and not paused. */
  function HandleKey(g: Game, key: Key, first: ShapeIndex, second: ShapeIndex): (r: Game)
    requires Valid(g)
    ensures Valid(r)
    ensures !g.running || g.paused || key == Other ==> r == g
  {
    if !g.running || g.paused then g
    else
      match key
      case Left => Move(g, -1, 0, first, second).0
      case Right => Move(g, 1, 0, first, second).0
      case Down => Move(g, 0, 1, first, second).0
      case Up => RotatePiece(g)
      case Space => DropToBottom(g, first, second)
      case Other => g
  }
}
