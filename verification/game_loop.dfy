/** The game loop: a state machine that owns the arena, the active and the
    next piece, the score, the line count and the per-kind statistics. Each
    call of DoStateMachine makes one transition; HandleInput and FallTick only
    move the machine out of its idle states. Randomness comes in as
    parameters: every `roll` is a value below `RollCount`, turned into a kind
    by the seven-value `Draw`. */
module Game {
  import opened Pieces
  import opened Arena

  datatype Position = Position(x: nat, y: nat)

  /** The move requests; `NoMove` is the source's `None` action. */
  datatype MoveActionType = NoMove | Rotate | Drop | MoveLeft | MoveRight

  datatype GameState =
    | Paused
    | Start
    | Running
    | Falling
    | Moving(action: MoveActionType)
    | PieceBlocked
    | CheckRows
    | CheckGameOver
    | GameOver

  datatype GameAction = Pause | Move(action: MoveActionType)

  datatype ShapeStatistics = ShapeStatistics(
    iCount: nat, jCount: nat, lCount: nat, oCount: nat, tCount: nat, sCount: nat, zCount: nat)

  /** What the loop reports through its callbacks, in the order it calls them. */
  datatype Notification =
    | ScoreUpdated(score: nat)
    | LinesUpdated(lines: nat)
    | NextPieceUpdated(shape: TetronimoShape)
    | StatisticsUpdated(statistics: ShapeStatistics)

  const NoStatistics := ShapeStatistics(0, 0, 0, 0, 0, 0, 0)

  /** The counter of one kind. */
  function StatisticsCount(stats: ShapeStatistics, shape: TetronimoShape): nat
  {
    match shape
    case IShape => stats.iCount
    case JShape => stats.jCount
    case LShape => stats.lCount
    case OShape => stats.oCount
    case SShape => stats.sCount
    case TShape => stats.tCount
    case ZShape => stats.zCount
  }

  /** The statistics after one more piece of kind `shape`: that counter goes up
      by one and no other counter moves. */
  function Incremented(stats: ShapeStatistics, shape: TetronimoShape): (r: ShapeStatistics)
    ensures StatisticsCount(r, shape) == StatisticsCount(stats, shape) + 1
    ensures forall other :: other != shape ==> StatisticsCount(r, other) == StatisticsCount(stats, other)
  {
    match shape
    case IShape => stats.(iCount := stats.iCount + 1)
    case JShape => stats.(jCount := stats.jCount + 1)
    case LShape => stats.(lCount := stats.lCount + 1)
    case OShape => stats.(oCount := stats.oCount + 1)
    case SShape => stats.(sCount := stats.sCount + 1)
    case TShape => stats.(tCount := stats.tCount + 1)
    case ZShape => stats.(zCount := stats.zCount + 1)
  }

  /** The state one step leaves, given the outcomes of the step's tests: whether
      the piece can fall, how many rows the scan cleared, and whether the piece
      spawned by the game-over check overlaps a block. */
  function NextState(state: GameState, canFall: bool, cleared: nat, overlap: bool): (next: GameState)
    ensures next == Paused <==> state == Paused
    ensures next == GameOver <==> state == GameOver || (state == CheckGameOver && overlap)
    ensures state.Moving? || state == Start ==> next == Running
    ensures next == PieceBlocked <==> state == Falling && !canFall
    ensures next == CheckRows <==> state == PieceBlocked || (state == CheckRows && cleared > 0)
    ensures next == CheckGameOver <==> state == CheckRows && cleared == 0
  {
    match state
    case Paused => Paused
    case Start => Running
    case Running => Running
    case Falling => if canFall then Running else PieceBlocked
    case Moving(_) => Running
    case PieceBlocked => CheckRows
    case CheckRows => if cleared > 0 then CheckRows else CheckGameOver
    case CheckGameOver => if overlap then GameOver else Running
    case GameOver => GameOver
  }

  // Geometry of a mask placed on the arena. Mask cell `offset` of a mask
  // `width` wide sits at column `offset % width` and row `offset / width` of
  // its bounding box, whose top-left corner is at `pos`.

  function CellX(pos: Position, offset: nat, width: nat): nat
    requires width > 0
  {
    pos.x + offset % width
  }

  function CellY(pos: Position, offset: nat, width: nat): nat
    requires width > 0
  {
    pos.y + offset / width
  }

  /** The flat arena index of mask cell `offset`. */
  function CellIndex(pos: Position, offset: nat, width: nat, arenaWidth: nat): nat
    requires width > 0
  {
    CellX(pos, offset, width) + arenaWidth * CellY(pos, offset, width)
  }

  function Below(pos: Position): Position
  {
    pos.(y := pos.y + 1)
  }

  /** Every present cell of the mask at `pos` lies inside the arena. */
  predicate PieceInside(mask: seq<bool>, width: nat, pos: Position, arenaSize: Position)
    requires width > 0
  {
    forall offset | 0 <= offset < |mask| && mask[offset] ::
      CellX(pos, offset, width) < arenaSize.x && CellY(pos, offset, width) < arenaSize.y
  }

  /** Indexing the arena at every present cell of the mask at `pos` stays in
      range; the source panics otherwise. */
  predicate PlaceInBounds(mask: seq<bool>, width: nat, pos: Position, arenaWidth: nat, arenaLength: nat)
    requires width > 0
  {
    forall offset | 0 <= offset < |mask| && mask[offset] :: CellIndex(pos, offset, width, arenaWidth) < arenaLength
  }

  /** The falling test reads the cell below a present cell only when that row
      is above the floor; those reads stay in range. */
  predicate FallInBounds(mask: seq<bool>, width: nat, pos: Position, arenaSize: Position, arenaLength: nat)
    requires width > 0
  {
    forall offset | 0 <= offset < |mask| && mask[offset] && CellY(pos, offset, width) + 1 < arenaSize.y ::
      CellIndex(Below(pos), offset, width, arenaSize.x) < arenaLength
  }

  /** The filter of the falling test: present cell `offset` would land past the
      floor or on a block. */
  predicate FallBlockedAt(mask: seq<bool>, width: nat, pos: Position, arena: seq<Cell>, arenaSize: Position, offset: nat)
    requires width > 0 && offset < |mask| && FallInBounds(mask, width, pos, arenaSize, |arena|)
  {
    mask[offset] &&
    (CellY(pos, offset, width) + 1 >= arenaSize.y || arena[CellIndex(Below(pos), offset, width, arenaSize.x)].Some?)
  }

  /** No present cell is blocked from moving one row down. */
  predicate CanFall(mask: seq<bool>, width: nat, pos: Position, arena: seq<Cell>, arenaSize: Position)
    requires width > 0 && FallInBounds(mask, width, pos, arenaSize, |arena|)
  {
    forall offset | 0 <= offset < |mask| :: !FallBlockedAt(mask, width, pos, arena, arenaSize, offset)
  }

  /** The filter of the left-move test: present cell `offset` is in arena column 0. */
  predicate AtLeftWall(mask: seq<bool>, width: nat, pos: Position, offset: nat)
    requires width > 0 && offset < |mask|
  {
    mask[offset] && CellX(pos, offset, width) == 0
  }

  predicate CanMoveLeft(mask: seq<bool>, width: nat, pos: Position)
    requires width > 0
  {
    forall offset | 0 <= offset < |mask| :: !AtLeftWall(mask, width, pos, offset)
  }

  /** The filter of the right-move test: present cell `offset` is in the last
      arena column or beyond it. */
  predicate AtRightWall(mask: seq<bool>, width: nat, pos: Position, arenaWidth: nat, offset: nat)
    requires width > 0 && offset < |mask|
  {
    mask[offset] && CellX(pos, offset, width) + 1 >= arenaWidth
  }

  predicate CanMoveRight(mask: seq<bool>, width: nat, pos: Position, arenaWidth: nat)
    requires width > 0
  {
    forall offset | 0 <= offset < |mask| :: !AtRightWall(mask, width, pos, arenaWidth, offset)
  }

  /** Some present cell among the first `upto` mask cells lies on a block. */
  predicate OverlapsBefore(mask: seq<bool>, width: nat, pos: Position, arena: seq<Cell>, arenaWidth: nat, upto: nat)
    requires width > 0 && upto <= |mask| && PlaceInBounds(mask, width, pos, arenaWidth, |arena|)
  {
    exists offset | 0 <= offset < upto && mask[offset] :: arena[CellIndex(pos, offset, width, arenaWidth)].Some?
  }

  /** Extending the overlap test by one mask cell adds exactly that cell's test. */
  lemma OverlapsStep(mask: seq<bool>, width: nat, pos: Position, arena: seq<Cell>, arenaWidth: nat, upto: nat)
    requires width > 0 && upto < |mask| && PlaceInBounds(mask, width, pos, arenaWidth, |arena|)
    ensures OverlapsBefore(mask, width, pos, arena, arenaWidth, upto + 1) <==>
      OverlapsBefore(mask, width, pos, arena, arenaWidth, upto)
      || (mask[upto] && arena[CellIndex(pos, upto, width, arenaWidth)].Some?)
  {
    if mask[upto] && arena[CellIndex(pos, upto, width, arenaWidth)].Some? {
      assert 0 <= upto < upto + 1 && mask[upto];
    }
  }

  /** Some present cell of the mask at `pos` lies on a block. */
  predicate Overlaps(mask: seq<bool>, width: nat, pos: Position, arena: seq<Cell>, arenaWidth: nat)
    requires width > 0 && PlaceInBounds(mask, width, pos, arenaWidth, |arena|)
  {
    OverlapsBefore(mask, width, pos, arena, arenaWidth, |mask|)
  }

  /** Test the present cells of the mask at `pos` one by one for a block
      underneath. */
  method FindOverlap(mask: seq<bool>, width: nat, pos: Position, arena: seq<Cell>, arenaWidth: nat)
    returns (overlap: bool)
    requires width > 0 && PlaceInBounds(mask, width, pos, arenaWidth, |arena|)
    ensures overlap <==> Overlaps(mask, width, pos, arena, arenaWidth)
  {
    overlap := false;
    for offset := 0 to |mask|
      invariant overlap <==> OverlapsBefore(mask, width, pos, arena, arenaWidth, offset)
    {
      var x := CellX(pos, offset, width);
      var y := CellY(pos, offset, width);
      OverlapsStep(mask, width, pos, arena, arenaWidth, offset);
      if mask[offset] && arena[x + (arenaWidth * y)].Some? {
        overlap := true;
      }
    }
  }

  /** Arena index `i` is the index of a present cell among the first `upto`. */
  ghost predicate CoveredBefore(mask: seq<bool>, width: nat, pos: Position, arenaWidth: nat, i: nat, upto: nat)
    requires width > 0 && upto <= |mask|
  {
    exists offset | 0 <= offset < upto && mask[offset] :: CellIndex(pos, offset, width, arenaWidth) == i
  }

  /** Covering one more mask cell adds exactly that cell's index, when present. */
  lemma CoveredStep(mask: seq<bool>, width: nat, pos: Position, arenaWidth: nat, upto: nat)
    requires width > 0 && upto < |mask|
    ensures forall i: nat :: CoveredBefore(mask, width, pos, arenaWidth, i, upto + 1) <==>
      CoveredBefore(mask, width, pos, arenaWidth, i, upto) || (mask[upto] && CellIndex(pos, upto, width, arenaWidth) == i)
  {
    forall i: nat
      ensures CoveredBefore(mask, width, pos, arenaWidth, i, upto + 1) <==>
        CoveredBefore(mask, width, pos, arenaWidth, i, upto) || (mask[upto] && CellIndex(pos, upto, width, arenaWidth) == i)
    {
      if mask[upto] && CellIndex(pos, upto, width, arenaWidth) == i {
        assert 0 <= upto < upto + 1 && mask[upto] && CellIndex(pos, upto, width, arenaWidth) == i;
      }
    }
  }

  /** Writing the kind under mask cell `offset` extends a partial placement
      over the cells before it to one over the cells up to and including it. */
  lemma PlaceOneCell(base: seq<Cell>, cur: seq<Cell>, mask: seq<bool>, width: nat, pos: Position,
                     arenaWidth: nat, shape: TetronimoShape, offset: nat)
    requires width > 0 && offset < |mask| && |cur| == |base|
    requires forall i | 0 <= i < |cur| ::
      cur[i] == if CoveredBefore(mask, width, pos, arenaWidth, i, offset) then Some(shape) else base[i]
    requires mask[offset] ==> CellIndex(pos, offset, width, arenaWidth) < |cur|
    ensures var next := if mask[offset] then cur[CellIndex(pos, offset, width, arenaWidth) := Some(shape)] else cur;
      forall i | 0 <= i < |next| ::
        next[i] == if CoveredBefore(mask, width, pos, arenaWidth, i, offset + 1) then Some(shape) else base[i]
  {
    CoveredStep(mask, width, pos, arenaWidth, offset);
  }

  /** The arena with `Some(shape)` written at every present cell of the mask at
      `pos` and every other cell as it was. */
  ghost function Placed(arena: seq<Cell>, mask: seq<bool>, width: nat, pos: Position, arenaWidth: nat, shape: TetronimoShape): seq<Cell>
    requires width > 0
  {
    seq(|arena|, i requires 0 <= i < |arena| =>
      if CoveredBefore(mask, width, pos, arenaWidth, i, |mask|) then Some(shape) else arena[i])
  }

  /** Locking writes the kind into the cell under every present mask cell and
      leaves every other cell, and the length, as they were. */
  lemma PlacedWritesPiece(arena: seq<Cell>, mask: seq<bool>, width: nat, pos: Position, arenaWidth: nat, shape: TetronimoShape)
    requires width > 0 && PlaceInBounds(mask, width, pos, arenaWidth, |arena|)
    ensures |Placed(arena, mask, width, pos, arenaWidth, shape)| == |arena|
    ensures forall offset | 0 <= offset < |mask| && mask[offset] ::
      Placed(arena, mask, width, pos, arenaWidth, shape)[CellIndex(pos, offset, width, arenaWidth)] == Some(shape)
    ensures forall i | 0 <= i < |arena| && !CoveredBefore(mask, width, pos, arenaWidth, i, |mask|) ::
      Placed(arena, mask, width, pos, arenaWidth, shape)[i] == arena[i]
  {
    forall offset | 0 <= offset < |mask| && mask[offset]
      ensures Placed(arena, mask, width, pos, arenaWidth, shape)[CellIndex(pos, offset, width, arenaWidth)] == Some(shape)
    {
      assert CoveredBefore(mask, width, pos, arenaWidth, CellIndex(pos, offset, width, arenaWidth), |mask|);
    }
  }

  /** The left-move guard can never drive the column below zero: every mask has
      a present cell in its leftmost column, which sits in column 0 when `pos.x`
      is 0. */
  lemma MoveLeftNeverUnderflows(shape: TetronimoShape, rotation: TetronimoRotation, pos: Position)
    requires CanMoveLeft(Cells(shape, rotation).0, Cells(shape, rotation).1, pos)
    ensures pos.x > 0
  {
    var (mask, width) := Cells(shape, rotation);
    CellsEdgeColumns(shape, rotation);
    var offset :| 0 <= offset < |mask| && mask[offset] && offset % width == 0;
    assert !AtLeftWall(mask, width, pos, offset);
  }

  /** A piece inside the arena that passes the left-move guard is still inside
      after moving one column left. */
  lemma MoveLeftStaysInside(shape: TetronimoShape, rotation: TetronimoRotation, pos: Position, arenaSize: Position)
    requires PieceInside(Cells(shape, rotation).0, Cells(shape, rotation).1, pos, arenaSize)
    requires CanMoveLeft(Cells(shape, rotation).0, Cells(shape, rotation).1, pos)
    ensures pos.x > 0
    ensures PieceInside(Cells(shape, rotation).0, Cells(shape, rotation).1, pos.(x := pos.x - 1), arenaSize)
  {
    MoveLeftNeverUnderflows(shape, rotation, pos);
  }

  /** A piece inside the arena that passes the right-move guard is still inside
      after moving one column right. */
  lemma MoveRightStaysInside(mask: seq<bool>, width: nat, pos: Position, arenaSize: Position)
    requires width > 0
    requires PieceInside(mask, width, pos, arenaSize) && CanMoveRight(mask, width, pos, arenaSize.x)
    ensures PieceInside(mask, width, pos.(x := pos.x + 1), arenaSize)
  {
    forall offset | 0 <= offset < |mask| && mask[offset]
      ensures CellX(pos.(x := pos.x + 1), offset, width) < arenaSize.x
    {
      assert !AtRightWall(mask, width, pos, arenaSize.x, offset);
    }
  }

  /** A piece inside the arena that can fall is still inside one row lower. */
  lemma FallStaysInside(mask: seq<bool>, width: nat, pos: Position, arena: seq<Cell>, arenaSize: Position)
    requires width > 0 && FallInBounds(mask, width, pos, arenaSize, |arena|)
    requires PieceInside(mask, width, pos, arenaSize) && CanFall(mask, width, pos, arena, arenaSize)
    ensures PieceInside(mask, width, Below(pos), arenaSize)
  {
    forall offset | 0 <= offset < |mask| && mask[offset]
      ensures CellY(Below(pos), offset, width) < arenaSize.y
    {
      assert !FallBlockedAt(mask, width, pos, arena, arenaSize, offset);
    }
  }

  /** The cell `x` of row `y` of a `width * height` arena has a flat index in range. */
  lemma IndexInRange(x: nat, y: nat, width: nat, height: nat)
    requires x < width && y < height
    ensures x + width * y < width * height
  {
    RowFits(width, height, y);
  }

  /** A piece inside the arena can be placed, and tested for falling, without
      an index out of range. */
  lemma InsideInBounds(mask: seq<bool>, width: nat, pos: Position, arenaSize: Position)
    requires width > 0 && PieceInside(mask, width, pos, arenaSize)
    ensures PlaceInBounds(mask, width, pos, arenaSize.x, arenaSize.x * arenaSize.y)
    ensures FallInBounds(mask, width, pos, arenaSize, arenaSize.x * arenaSize.y)
  {
    forall offset | 0 <= offset < |mask| && mask[offset]
      ensures CellIndex(pos, offset, width, arenaSize.x) < arenaSize.x * arenaSize.y
    {
      IndexInRange(CellX(pos, offset, width), CellY(pos, offset, width), arenaSize.x, arenaSize.y);
    }
    forall offset | 0 <= offset < |mask| && mask[offset] && CellY(pos, offset, width) + 1 < arenaSize.y
      ensures CellIndex(Below(pos), offset, width, arenaSize.x) < arenaSize.x * arenaSize.y
    {
      IndexInRange(CellX(pos, offset, width), CellY(pos, offset, width) + 1, arenaSize.x, arenaSize.y);
    }
  }

  /** Where every new piece starts: top row, middle column. */
  function SpawnPosition(arenaSize: Position): Position
  {
    Position(arenaSize.x / 2, 0)
  }

  /** A freshly spawned piece (pointing North, at the top row, in the middle
      column) lies inside any arena at least five wide and four tall. */
  lemma SpawnInside(shape: TetronimoShape, arenaSize: Position)
    requires arenaSize.x >= 5 && arenaSize.y >= 4
    ensures PieceInside(Cells(shape, North).0, Cells(shape, North).1, SpawnPosition(arenaSize), arenaSize)
  {
    var (mask, width) := Cells(shape, North);
    forall offset | 0 <= offset < |mask| && mask[offset]
      ensures offset % width < 3 && offset / width < 4
    {
      CellsWidths(North);
    }
  }

  /** A spawned piece in an arena at least five wide and four tall can be
      tested for overlap without an index out of range. */
  lemma SpawnInBounds(shape: TetronimoShape, arenaSize: Position)
    requires arenaSize.x >= 5 && arenaSize.y >= 4
    ensures PlaceInBounds(Cells(shape, North).0, Cells(shape, North).1, SpawnPosition(arenaSize),
                          arenaSize.x, arenaSize.x * arenaSize.y)
  {
    SpawnInside(shape, arenaSize);
    InsideInBounds(Cells(shape, North).0, Cells(shape, North).1, SpawnPosition(arenaSize), arenaSize);
  }

  /** Rotation is not checked against the arena: an I piece lying on the bottom
      row of a 4x10 arena sticks out below the floor after a quarter turn, and
      locking it there would index past the end of the arena. */
  lemma RotateCanLeaveArena()
    ensures PieceInside(Cells(IShape, East).0, Cells(IShape, East).1, Position(0, 9), Position(4, 10))
    ensures !PieceInside(Cells(IShape, Clockwise(East)).0, Cells(IShape, Clockwise(East)).1, Position(0, 9), Position(4, 10))
    ensures !PlaceInBounds(Cells(IShape, Clockwise(East)).0, Cells(IShape, Clockwise(East)).1, Position(0, 9), 4, 40)
  {
    assert Cells(IShape, East) == (IRight, 4) && Clockwise(East) == South;
    assert Cells(IShape, South) == (IUp, 1);
    LyingIInside();
    StandingIOutside();
  }

  /** The lying I piece on the bottom row of a 4x10 arena is inside it. */
  lemma LyingIInside()
    ensures PieceInside(IRight, 4, Position(0, 9), Position(4, 10))
  {
    forall offset | 0 <= offset < 4
      ensures CellX(Position(0, 9), offset, 4) < 4 && CellY(Position(0, 9), offset, 4) < 10
    {
      assert offset / 4 == 0;
    }
  }

  /** The standing I piece at the same place reaches below the floor and past
      the end of the arena's cells. */
  lemma StandingIOutside()
    ensures !PieceInside(IUp, 1, Position(0, 9), Position(4, 10))
    ensures !PlaceInBounds(IUp, 1, Position(0, 9), 4, 40)
  {
    assert IUp[1] && CellY(Position(0, 9), 1, 1) == 10;
    assert IUp[3] && CellIndex(Position(0, 9), 3, 1, 4) == 48;
  }

  /** Every field of the game loop, as a value. */
  datatype Snapshot = Snapshot(
    arena: seq<Cell>,
    nextPiece: Option<TetronimoShape>,
    shape: TetronimoShape,
    rotation: TetronimoRotation,
    position: Position,
    oldPosition: Position,
    gameState: GameState,
    score: nat,
    lines: nat,
    statistics: ShapeStatistics)

  /** The kind a spawn takes: the waiting next piece if there is one, else a draw. */
  function SpawnKind(nextPiece: Option<TetronimoShape>, roll: nat): TetronimoShape
    requires roll < RollCount
  {
    match nextPiece
    case Some(shape) => shape
    case None => Draw(roll)
  }

  /** The arena reads a step makes stay in range; the source panics otherwise. */
  ghost predicate StepInBounds(s: Snapshot, arenaSize: Position, pieceRoll: nat)
    requires pieceRoll < RollCount
  {
    && (s.gameState == Falling ==>
          FallInBounds(Cells(s.shape, s.rotation).0, Cells(s.shape, s.rotation).1, s.position, arenaSize, |s.arena|))
    && (s.gameState == PieceBlocked ==>
          PlaceInBounds(Cells(s.shape, s.rotation).0, Cells(s.shape, s.rotation).1, s.position, arenaSize.x, |s.arena|))
    && (s.gameState == CheckGameOver ==>
          PlaceInBounds(Cells(SpawnKind(s.nextPiece, pieceRoll), North).0, Cells(SpawnKind(s.nextPiece, pieceRoll), North).1,
                        SpawnPosition(arenaSize), arenaSize.x, |s.arena|))
  }

  /** The fields after a spawn: the new piece points North at the top of the
      middle column, its kind's counter goes up by one, and a next piece is drawn. */
  function Spawned(s: Snapshot, arenaSize: Position, pieceRoll: nat, nextRoll: nat): Snapshot
    requires pieceRoll < RollCount && nextRoll < RollCount
  {
    var shape := SpawnKind(s.nextPiece, pieceRoll);
    s.(nextPiece := Some(Draw(nextRoll)), shape := shape, rotation := North,
       position := SpawnPosition(arenaSize), statistics := Incremented(s.statistics, shape))
  }

  /** The fields after a move request, before the state returns to `Running`. */
  function Moved(s: Snapshot, action: MoveActionType, arenaWidth: nat): Snapshot
  {
    var (mask, width) := Cells(s.shape, s.rotation);
    match action
    case NoMove => s
    case Drop => s
    case Rotate => s.(rotation := Clockwise(s.rotation))
    case MoveLeft =>
      if CanMoveLeft(mask, width, s.position) then
        MoveLeftNeverUnderflows(s.shape, s.rotation, s.position);
        s.(position := s.position.(x := s.position.x - 1))
      else s
    case MoveRight =>
      if CanMoveRight(mask, width, s.position, arenaWidth) then s.(position := s.position.(x := s.position.x + 1))
      else s
  }

  /** The fields after the row check, with its notifications: clearing k > 0
      rows adds k * k to the score and k to the lines and keeps the state;
      clearing none moves the state to `CheckGameOver` and changes nothing else. */
  ghost function CheckedRows(s: Snapshot, arenaSize: Position): (Snapshot, seq<Notification>)
    requires |s.arena| == arenaSize.x * arenaSize.y
  {
    var scan := ScanRows(s.arena, arenaSize.x, arenaSize.y, 0);
    var k := scan.1;
    if k > 0 then
      (s.(arena := scan.0, score := s.score + k * k, lines := s.lines + k),
       [ScoreUpdated(s.score + k * k), LinesUpdated(s.lines + k)])
    else (s.(gameState := CheckGameOver), [])
  }

  /** One step of the state machine on the loop's fields: the new fields and
      the notifications the step reports, in the order it reports them. */
  ghost function Step(s: Snapshot, arenaSize: Position, pieceRoll: nat, nextRoll: nat): (Snapshot, seq<Notification>)
    requires pieceRoll < RollCount && nextRoll < RollCount
    requires |s.arena| == arenaSize.x * arenaSize.y && StepInBounds(s, arenaSize, pieceRoll)
  {
    var t := s.(oldPosition := s.position);
    var (mask, width) := Cells(s.shape, s.rotation);
    match s.gameState
    case Paused => (t, [])
    case Running => (t, [])
    case GameOver => (t, [])
    case Start =>
      var n := Spawned(t, arenaSize, pieceRoll, nextRoll);
      (n.(arena := EmptyArena(arenaSize.x * arenaSize.y), gameState := Running, score := 0, lines := 0),
       [StatisticsUpdated(n.statistics), NextPieceUpdated(Draw(nextRoll)), ScoreUpdated(0), LinesUpdated(0)])
    case Falling =>
      if CanFall(mask, width, s.position, s.arena, arenaSize) then
        (t.(position := Below(s.position), gameState := Running), [])
      else (t.(gameState := PieceBlocked), [])
    case Moving(action) => (Moved(t, action, arenaSize.x).(gameState := Running), [])
    case PieceBlocked =>
      (t.(arena := Placed(s.arena, mask, width, s.position, arenaSize.x, s.shape), gameState := CheckRows), [])
    case CheckRows => CheckedRows(t, arenaSize)
    case CheckGameOver =>
      var n := Spawned(t, arenaSize, pieceRoll, nextRoll);
      var (spawnMask, spawnWidth) := Cells(n.shape, North);
      (n.(gameState := if Overlaps(spawnMask, spawnWidth, n.position, n.arena, arenaSize.x) then GameOver else Running),
       [StatisticsUpdated(n.statistics), NextPieceUpdated(Draw(nextRoll))])
  }

  /** A step moves the state as the transition table says, sets the old
      position to the position it started from, and keeps the arena's size. */
  lemma StepFollowsNextState(s: Snapshot, arenaSize: Position, pieceRoll: nat, nextRoll: nat)
    requires pieceRoll < RollCount && nextRoll < RollCount
    requires |s.arena| == arenaSize.x * arenaSize.y && StepInBounds(s, arenaSize, pieceRoll)
    ensures var r := Step(s, arenaSize, pieceRoll, nextRoll).0;
      && r.oldPosition == s.position
      && |r.arena| == |s.arena|
      && r.gameState == NextState(
           s.gameState,
           s.gameState == Falling && CanFall(Cells(s.shape, s.rotation).0, Cells(s.shape, s.rotation).1, s.position, s.arena, arenaSize),
           if s.gameState == CheckRows then ScanRows(s.arena, arenaSize.x, arenaSize.y, 0).1 else 0,
           s.gameState == CheckGameOver &&
             Overlaps(Cells(SpawnKind(s.nextPiece, pieceRoll), North).0, Cells(SpawnKind(s.nextPiece, pieceRoll), North).1,
                      SpawnPosition(arenaSize), s.arena, arenaSize.x))
  {
  }

  /** A step reports something exactly when it spawns a piece or clears rows. */
  lemma StepReports(s: Snapshot, arenaSize: Position, pieceRoll: nat, nextRoll: nat)
    requires pieceRoll < RollCount && nextRoll < RollCount
    requires |s.arena| == arenaSize.x * arenaSize.y && StepInBounds(s, arenaSize, pieceRoll)
    ensures Step(s, arenaSize, pieceRoll, nextRoll).1 != [] <==>
      || s.gameState in {Start, CheckGameOver}
      || (s.gameState == CheckRows && ScanRows(s.arena, arenaSize.x, arenaSize.y, 0).1 > 0)
  {
  }

  /** No step lowers any kind's counter; outside `Start`, which zeroes the score and
      the line count, no step lowers those either. */
  lemma StepNeverLowersCounters(s: Snapshot, arenaSize: Position, pieceRoll: nat, nextRoll: nat)
    requires pieceRoll < RollCount && nextRoll < RollCount
    requires |s.arena| == arenaSize.x * arenaSize.y && StepInBounds(s, arenaSize, pieceRoll)
    ensures var r := Step(s, arenaSize, pieceRoll, nextRoll).0;
      forall shape :: StatisticsCount(r.statistics, shape) >= StatisticsCount(s.statistics, shape)
    ensures var r := Step(s, arenaSize, pieceRoll, nextRoll).0;
      s.gameState != Start ==> r.score >= s.score && r.lines >= s.lines
  {
    var t := s.(oldPosition := s.position);
    match s.gameState {
      case Start =>
        assert Step(s, arenaSize, pieceRoll, nextRoll).0.statistics
          == Incremented(s.statistics, SpawnKind(s.nextPiece, pieceRoll));
      case CheckRows =>
        var k := ScanRows(s.arena, arenaSize.x, arenaSize.y, 0).1;
        assert k * k >= 0;
      case CheckGameOver =>
        assert Step(s, arenaSize, pieceRoll, nextRoll).0.statistics
          == Incremented(s.statistics, SpawnKind(s.nextPiece, pieceRoll));
      case Moving(action) =>
        assert Step(s, arenaSize, pieceRoll, nextRoll).0 == Moved(t, action, arenaSize.x).(gameState := Running);
      case _ =>
    }
  }

  class GameLoop {
    var arena: seq<Cell>
    var nextPiece: Option<TetronimoShape>
    var piece: Tetronimo
    var position: Position
    var oldPosition: Position
    const arenaSize: Position
    var gameState: GameState
    var currentScore: nat
    var currentLines: nat
    var shapesStatistics: ShapeStatistics

    /** The arena always holds `width * height` cells. */
    ghost predicate Valid()
      reads this
    {
      |arena| == arenaSize.x * arenaSize.y
    }

    ghost function View(): Snapshot
      reads this, piece
    {
      Snapshot(arena, nextPiece, piece.shape, piece.rotation, position, oldPosition,
               gameState, currentScore, currentLines, shapesStatistics)
    }


    ghost predicate PieceFallInBounds()
      reads this, piece
    {
      FallInBounds(piece.Mask().0, piece.Mask().1, position, arenaSize, |arena|)
    }

    ghost predicate PieceCanFall()
      requires PieceFallInBounds()
      reads this, piece
    {
      CanFall(piece.Mask().0, piece.Mask().1, position, arena, arenaSize)
    }

    ghost predicate PiecePlaceable()
      reads this, piece
    {
      PlaceInBounds(piece.Mask().0, piece.Mask().1, position, arenaSize.x, |arena|)
    }

    ghost predicate SpawnPlaceable(roll: nat)
      requires roll < RollCount
      reads this
    {
      PlaceInBounds(Cells(SpawnKind(nextPiece, roll), North).0, Cells(SpawnKind(nextPiece, roll), North).1, SpawnPosition(arenaSize), arenaSize.x, |arena|)
    }

    ghost predicate SpawnOverlaps(roll: nat)
      requires roll < RollCount && SpawnPlaceable(roll)
      reads this
    {
      Overlaps(Cells(SpawnKind(nextPiece, roll), North).0, Cells(SpawnKind(nextPiece, roll), North).1, SpawnPosition(arenaSize), arena, arenaSize.x)
    }

    /** The step about to run indexes the arena only in range (the source
        panics otherwise). */
    ghost predicate StepSafe(pieceRoll: nat)
      requires pieceRoll < RollCount
      reads this, piece
    {
      StepInBounds(View(), arenaSize, pieceRoll)
    }

    /** A new loop: an empty arena, a drawn piece and no next piece, waiting in `Start`. */
    constructor (arenaWidth: nat, arenaHeight: nat, roll: nat)
      requires roll < RollCount
      ensures Valid() && fresh(piece) && arenaSize == Position(arenaWidth, arenaHeight)
      ensures View() == Snapshot(EmptyArena(arenaWidth * arenaHeight), None, Draw(roll), North,
                                 Position(0, 0), Position(0, 0), Start, 0, 0, NoStatistics)
    {
      arena := EmptyArena(arenaWidth * arenaHeight);
      nextPiece := None;
      piece := new Tetronimo(Draw(roll));
      position := Position(0, 0);
      oldPosition := Position(0, 0);
      arenaSize := Position(arenaWidth, arenaHeight);
      gameState := Start;
      currentScore := 0;
      currentLines := 0;
      shapesStatistics := NoStatistics;
    }

    /** Pause only resumes a paused game; a move request is taken only while
        running. Nothing else changes. */
    method HandleInput(gameAction: GameAction)
      modifies this
      ensures piece == old(piece)
      ensures gameAction == Pause && old(gameState) == Paused ==> gameState == Running
      ensures gameAction.Move? && old(gameState) == Running ==> gameState == Moving(gameAction.action)
      ensures !(gameAction == Pause && old(gameState) == Paused) && !(gameAction.Move? && old(gameState) == Running)
        ==> gameState == old(gameState)
      ensures View() == old(View()).(gameState := gameState)
    {
      match gameAction
      case Pause =>
        if gameState == Paused {
          gameState := Running;
        }
      case Move(moveAction) =>
        if gameState == Running {
          gameState := Moving(moveAction);
        }
    }

    /** A fall tick only moves a running game to `Falling`. */
    method FallTick()
      modifies this
      ensures piece == old(piece)
      ensures old(gameState) == Running ==> gameState == Falling
      ensures old(gameState) != Running ==> gameState == old(gameState)
      ensures View() == old(View()).(gameState := gameState)
    {
      if gameState == Running {
        gameState := Falling;
      }
    }

    /** One transition of the state machine. */
    method DoStateMachine(pieceRoll: nat, nextRoll: nat) returns (events: seq<Notification>)
      requires Valid() && pieceRoll < RollCount && nextRoll < RollCount && StepSafe(pieceRoll)
      modifies this, piece
      ensures Valid()
      ensures old(gameState) in {Start, CheckGameOver} ==> fresh(piece)
      ensures old(gameState) !in {Start, CheckGameOver} ==> piece == old(piece)
      ensures (View(), events) == Step(old(View()), arenaSize, pieceRoll, nextRoll)
    {
      ghost var step := Step(View(), arenaSize, pieceRoll, nextRoll);
      oldPosition := position;
      events := [];
      match gameState {
        case Paused =>
        case Start =>
          events := HandleStart(pieceRoll, nextRoll);
        case Running =>
        case Falling =>
          HandleFalling();
        case Moving(gameMoveType) =>
          HandleMovementState(gameMoveType);
        case PieceBlocked =>
          HandlePieceBlocked();
        case CheckRows =>
          events := HandleCheckRows();
        case CheckGameOver =>
          events := HandleCheckGameOver(pieceRoll, nextRoll);
        case GameOver =>
          HandleGameOver();
      }
      assert (View(), events) == step;
    }

    /** Spawn a piece, empty the arena, zero the score and the lines, and run. */
    method HandleStart(pieceRoll: nat, nextRoll: nat) returns (events: seq<Notification>)
      requires Valid() && pieceRoll < RollCount && nextRoll < RollCount
      modifies this
      ensures Valid() && fresh(piece)
      ensures View() == old(View()).(
        arena := EmptyArena(arenaSize.x * arenaSize.y),
        nextPiece := Some(Draw(nextRoll)),
        shape := old(SpawnKind(nextPiece, pieceRoll)),
        rotation := North,
        position := SpawnPosition(arenaSize),
        gameState := Running,
        score := 0,
        lines := 0,
        statistics := Incremented(old(shapesStatistics), old(SpawnKind(nextPiece, pieceRoll))))
      ensures events == [StatisticsUpdated(shapesStatistics), NextPieceUpdated(Draw(nextRoll)),
                         ScoreUpdated(0), LinesUpdated(0)]
    {
      events := CreateNewPiece(pieceRoll, nextRoll);
      CreateNewArena();
      currentScore := 0;
      currentLines := 0;
      events := events + [ScoreUpdated(currentScore), LinesUpdated(currentLines)];
      gameState := Running;
    }

    /** Move the piece one row down if no present cell is blocked (past the
        floor or on a block) and go back to `Running`; otherwise stay put and
        go to `PieceBlocked`. */
    method HandleFalling()
      requires Valid() && PieceFallInBounds()
      modifies this
      ensures piece == old(piece)
      ensures Valid()
      ensures old(PieceCanFall()) ==> View() == old(View()).(position := Below(old(position)), gameState := Running)
      ensures !old(PieceCanFall()) ==> View() == old(View()).(gameState := PieceBlocked)
    {
      var (shape, width) := piece.Mask();
      if CanFall(shape, width, position, arena, arenaSize) {
        position := position.(y := position.y + 1);
        gameState := Running;
      } else {
        gameState := PieceBlocked;
      }
    }

    /** Carry out one move request and go back to `Running`. */
    method HandleMovementState(gameMoveType: MoveActionType)
      requires Valid()
      modifies this, piece
      ensures Valid() && piece == old(piece) && gameState == Running
      ensures gameMoveType == NoMove || gameMoveType == Drop ==> View() == old(View()).(gameState := Running)
      ensures gameMoveType == Rotate ==>
        View() == old(View()).(rotation := Clockwise(old(piece.rotation)), gameState := Running)
      ensures gameMoveType == MoveLeft ==>
        if CanMoveLeft(old(piece.Mask()).0, old(piece.Mask()).1, old(position))
        then old(position).x > 0 &&
             View() == old(View()).(gameState := Running, position := old(position).(x := old(position).x - 1))
        else View() == old(View()).(gameState := Running)
      ensures gameMoveType == MoveRight ==>
        View() == old(View()).(gameState := Running,
          position := if CanMoveRight(old(piece.Mask()).0, old(piece.Mask()).1, old(position), arenaSize.x)
                      then old(position).(x := old(position).x + 1) else old(position))
    {
      match gameMoveType {
        case NoMove =>
        case Rotate => HandleRotate();
        case Drop => HandleDrop();
        case MoveLeft => HandleMoveLeft();
        case MoveRight => HandleMoveRight();
      }
      gameState := Running;
    }

    /** Turn the piece a quarter clockwise, without checking the arena. */
    method HandleRotate()
      modifies piece
      ensures View() == old(View()).(rotation := Clockwise(old(piece.rotation)))
    {
      piece.Rotate();
    }

    /** The drop request does nothing. */
    method HandleDrop()
      ensures View() == old(View())
    {
    }

    /** Move one column left unless a present cell is in column 0. */
    method HandleMoveLeft()
      modifies this
      ensures piece == old(piece)
      ensures CanMoveLeft(old(piece.Mask()).0, old(piece.Mask()).1, old(position)) ==>
        old(position).x > 0 && View() == old(View()).(position := old(position).(x := old(position).x - 1))
      ensures !CanMoveLeft(old(piece.Mask()).0, old(piece.Mask()).1, old(position)) ==> View() == old(View())
    {
      var (shape, width) := piece.Mask();
      if CanMoveLeft(shape, width, position) {
        MoveLeftNeverUnderflows(piece.shape, piece.rotation, position);
        position := position.(x := position.x - 1);
      }
    }

    /** Move one column right unless a present cell is in the last column. */
    method HandleMoveRight()
      modifies this
      ensures piece == old(piece)
      ensures CanMoveRight(old(piece.Mask()).0, old(piece.Mask()).1, old(position), arenaSize.x) ==>
        View() == old(View()).(position := old(position).(x := old(position).x + 1))
      ensures !CanMoveRight(old(piece.Mask()).0, old(piece.Mask()).1, old(position), arenaSize.x) ==>
        View() == old(View())
    {
      var (shape, width) := piece.Mask();
      if CanMoveRight(shape, width, position, arenaSize.x) {
        position := position.(x := position.x + 1);
      }
    }

    /** Lock the piece into the arena and go to `CheckRows`. */
    method HandlePieceBlocked()
      requires Valid() && PiecePlaceable()
      modifies this
      ensures piece == old(piece)
      ensures Valid()
      ensures View() == old(View()).(gameState := CheckRows,
        arena := Placed(old(arena), piece.Mask().0, piece.Mask().1, position, arenaSize.x, piece.shape))
    {
      AddPieceToArena();
      gameState := CheckRows;
    }

    /** Scan for complete rows. Clearing k > 0 rows adds k * k to the score and
        k to the lines and stays in `CheckRows`; clearing none changes nothing
        but the state, which becomes `CheckGameOver`. */
    method HandleCheckRows() returns (events: seq<Notification>)
      requires Valid()
      modifies this
      ensures piece == old(piece)
      ensures Valid() && arena == ScanRows(old(arena), arenaSize.x, arenaSize.y, 0).0
      ensures (View(), events) == CheckedRows(old(View()), arenaSize)
    {
      ghost var before := View();
      var completeRow := RemoveCompleteRows();
      if completeRow > 0 {
        currentScore := currentScore + completeRow * completeRow;
        events := [ScoreUpdated(currentScore)];
        currentLines := currentLines + completeRow;
        events := events + [LinesUpdated(currentLines)];
        assert View() == before.(arena := arena, score := currentScore, lines := currentLines);
        assert events == [ScoreUpdated(currentScore), LinesUpdated(currentLines)];
      } else {
        ScanRowsNone(before.arena, arenaSize.x, arenaSize.y, 0);
        gameState := CheckGameOver;
        events := [];
      }
    }

    /** The inner loop of remove_complete_rows: row `y`, which lies inside the
        arena, is complete exactly when none of its cells is empty. */
    method IsRowComplete(y: nat) returns (complete: bool)
      requires Valid() && arenaSize.x * y + arenaSize.x <= |arena|
      ensures complete <==> RowComplete(arena, arenaSize.x, y)
    {
      complete := true;
      for x := 0 to arenaSize.x
        invariant complete <==> forall x' | 0 <= x' < x :: CellAt(arena, arenaSize.x, x', y).Some?
      {
        assert CellAt(arena, arenaSize.x, x, y) == arena[(arenaSize.x * y) + x];
        if arena[(arenaSize.x * y) + x].None? {
          complete := false;
        }
      }
    }

    /** remove_complete_rows: scan the rows top to bottom; each row found
        complete on the current arena is cleared and the arena settled before
        the scan moves on. Returns the number of rows cleared. */
    method RemoveCompleteRows() returns (completeRow: nat)
      requires Valid()
      modifies this
      ensures piece == old(piece)
      ensures Valid()
      ensures (arena, completeRow) == ScanRows(old(arena), arenaSize.x, arenaSize.y, 0)
      ensures View() == old(View()).(arena := arena)
    {
      ghost var total := ScanRows(arena, arenaSize.x, arenaSize.y, 0);
      completeRow := 0;
      for y := 0 to arenaSize.y
        invariant Valid() && piece == old(piece) && View() == old(View()).(arena := arena)
        invariant ScanRows(arena, arenaSize.x, arenaSize.y, y).0 == total.0
        invariant completeRow + ScanRows(arena, arenaSize.x, arenaSize.y, y).1 == total.1
      {
        RowFits(arenaSize.x, arenaSize.y, y);
        ScanRowsStep(arena, arenaSize.x, arenaSize.y, y);
        var complete := IsRowComplete(y);
        if complete {
          ghost var full := arena;
          DropRows(y);
          DropBlocks();
          assert arena == Settle(ClearRow(full, arenaSize.x, y), arenaSize.x);
          completeRow := completeRow + 1;
        }
      }
    }

    /** Spawn the next piece and end the game if any of its present cells
        lies on a block; otherwise run. */
    method HandleCheckGameOver(pieceRoll: nat, nextRoll: nat) returns (events: seq<Notification>)
      requires Valid() && pieceRoll < RollCount && nextRoll < RollCount && SpawnPlaceable(pieceRoll)
      modifies this
      ensures Valid() && fresh(piece)
      ensures View() == old(View()).(
        nextPiece := Some(Draw(nextRoll)),
        shape := old(SpawnKind(nextPiece, pieceRoll)),
        rotation := North,
        position := SpawnPosition(arenaSize),
        gameState := if old(SpawnOverlaps(pieceRoll)) then GameOver else Running,
        statistics := Incremented(old(shapesStatistics), old(SpawnKind(nextPiece, pieceRoll))))
      ensures events == [StatisticsUpdated(shapesStatistics), NextPieceUpdated(Draw(nextRoll))]
    {
      ghost var spawned := Cells(SpawnKind(nextPiece, pieceRoll), North);
      events := CreateNewPiece(pieceRoll, nextRoll);
      var (blocks, width) := piece.Mask();
      assert (blocks, width) == spawned;
      var overlap := FindOverlap(blocks, width, position, arena, arenaSize.x);
      if overlap {
        gameState := GameOver;
      } else {
        gameState := Running;
      }
    }

    /** Game over only reports itself; the state stays `GameOver`. */
    method HandleGameOver()
      ensures View() == old(View())
    {
    }

    /** Write the piece's kind into every arena cell under a present mask cell. */
    method AddPieceToArena()
      requires Valid() && PiecePlaceable()
      modifies this
      ensures piece == old(piece)
      ensures Valid()
      ensures View() == old(View()).(
        arena := Placed(old(arena), piece.Mask().0, piece.Mask().1, position, arenaSize.x, piece.shape))
    {
      var (blocks, width) := piece.Mask();
      for offset := 0 to |blocks|
        invariant Valid() && piece == old(piece) && View() == old(View()).(arena := arena)
        invariant forall i | 0 <= i < |arena| ::
          arena[i] == if CoveredBefore(blocks, width, position, arenaSize.x, i, offset) then Some(piece.shape) else old(arena)[i]
      {
        var x := CellX(position, offset, width);
        var y := CellY(position, offset, width);
        PlaceOneCell(old(arena), arena, blocks, width, position, arenaSize.x, piece.shape, offset);
        if blocks[offset] {
          arena := arena[x + (arenaSize.x * y) := Some(piece.shape)];
        }
      }
      assert arena == Placed(old(arena), blocks, width, position, arenaSize.x, piece.shape);
    }

    /** Promote the next piece (or draw one), count it, draw a new next piece
        and place the new piece at the spawn position. */
    method CreateNewPiece(pieceRoll: nat, nextRoll: nat) returns (events: seq<Notification>)
      requires pieceRoll < RollCount && nextRoll < RollCount
      modifies this
      ensures fresh(piece)
      ensures View() == old(View()).(
        nextPiece := Some(Draw(nextRoll)),
        shape := old(SpawnKind(nextPiece, pieceRoll)),
        rotation := North,
        position := SpawnPosition(arenaSize),
        statistics := Incremented(old(shapesStatistics), old(SpawnKind(nextPiece, pieceRoll))))
      ensures events == [StatisticsUpdated(shapesStatistics), NextPieceUpdated(Draw(nextRoll))]
    {
      match nextPiece {
        case Some(shape) =>
          piece := new Tetronimo(shape);
        case None =>
          piece := new Tetronimo(Draw(pieceRoll));
      }
      shapesStatistics := Incremented(shapesStatistics, piece.shape);
      events := [StatisticsUpdated(shapesStatistics)];
      nextPiece := Some(Draw(nextRoll));
      position := Position(arenaSize.x / 2, 0);
      events := events + [NextPieceUpdated(nextPiece.value)];
    }

    /** Replace the arena with an all-empty one of the same size. */
    method CreateNewArena()
      modifies this
      ensures Valid() && piece == old(piece)
      ensures View() == old(View()).(arena := EmptyArena(arenaSize.x * arenaSize.y))
    {
      arena := EmptyArena(arenaSize.x * arenaSize.y);
    }

    /** drop_rows: empty the `width` cells of row `row` and nothing else. */
    method DropRows(row: nat)
      requires Valid() && row < arenaSize.y
      modifies this
      ensures piece == old(piece)
      ensures Valid()
      ensures View() == old(View()).(arena := ClearRow(old(arena), arenaSize.x, row))
    {
      RowFits(arenaSize.x, arenaSize.y, row);
      var rowOffset := row * arenaSize.x;
      assert rowOffset == arenaSize.x * row;
      for colOffset := 0 to arenaSize.x
        invariant Valid() && piece == old(piece) && View() == old(View()).(arena := arena)
        invariant forall i | 0 <= i < |arena| ::
          arena[i] == if rowOffset <= i < rowOffset + colOffset then None else old(arena)[i]
      {
        arena := arena[rowOffset + colOffset := None];
      }
      assert arena == ClearRow(old(arena), arenaSize.x, row);
    }

    /** drop_blocks: pass over the arena moving every block that has an empty
        cell below it one row down; when a pass moved anything, start over
        (the source recurses, then runs one more pass that finds nothing). */
    method DropBlocks()
      requires Valid()
      modifies this
      ensures piece == old(piece)
      ensures Valid()
      ensures View() == old(View()).(arena := Settle(old(arena), arenaSize.x))
      decreases Potential(arena)
    {
      ghost var initial := arena;
      while true
        invariant Valid() && piece == old(piece) && View() == old(View()).(arena := arena)
        invariant Settle(arena, arenaSize.x) == Settle(initial, arenaSize.x)
        invariant arena == initial || Pass(arena, arenaSize.x) == arena
        decreases if Pass(arena, arenaSize.x) == arena then 0 else 1
      {
        var changed := false;
        ghost var before := arena;
        for block := 0 to arenaSize.x * arenaSize.y
          invariant Valid() && piece == old(piece) && View() == old(View()).(arena := arena)
          invariant arena == PassTo(before, arenaSize.x, block)
          invariant changed ==> Potential(arena) < Potential(before)
          invariant !changed ==> arena == before
        {
          DropCellEffect(arena, arenaSize.x, block);
          if arena[block].None? {
            // An empty cell cannot drop.
          } else if block + arenaSize.x >= arenaSize.x * arenaSize.y {
            // The bottom row.
          } else if arena[block + arenaSize.x].None? {
            arena := arena[block + arenaSize.x := arena[block]][block := None];
            changed := true;
          }
        }
        if changed {
          DropBlocks();
          SettleIsFixed(before, arenaSize.x);
        } else {
          break;
        }
      }
    }
  }
}
