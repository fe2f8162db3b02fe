/** The piece catalogue and the active piece: seven piece kinds, four rotations,
    and the constant table of row-major cell masks with their bounding widths. */
module Pieces {

  datatype TetronimoShape = IShape | JShape | LShape | OShape | SShape | TShape | ZShape

  datatype TetronimoRotation = North | East | South | West

  /** Position of a kind in declaration order. */
  function ShapeIndex(s: TetronimoShape): (i: nat)
    ensures i < 7
  {
    match s
    case IShape => 0
    case JShape => 1
    case LShape => 2
    case OShape => 3
    case SShape => 4
    case TShape => 5
    case ZShape => 6
  }

  /** Position of a rotation in the clockwise cycle North, East, South, West. */
  function RotationIndex(r: TetronimoRotation): (i: nat)
    ensures i < 4
  {
    match r
    case North => 0
    case East => 1
    case South => 2
    case West => 3
  }

  /** One quarter turn clockwise. */
  function Clockwise(r: TetronimoRotation): (c: TetronimoRotation)
    ensures RotationIndex(c) == (RotationIndex(r) + 1) % 4
    ensures c != r
  {
    match r
    case North => East
    case East => South
    case South => West
    case West => North
  }

  /** Four quarter turns bring every rotation back to itself, and no fewer do. */
  lemma ClockwiseCycle(r: TetronimoRotation)
    ensures Clockwise(Clockwise(Clockwise(Clockwise(r)))) == r
    ensures Clockwise(Clockwise(r)) != r && Clockwise(Clockwise(Clockwise(r))) != r
  {
  }

  // The cell masks, row-major, one boolean per cell of the bounding box.
  const IUp: seq<bool> := [true, true, true, true]
  const IRight: seq<bool> := [true, true, true, true]
  const JUp: seq<bool> := [true, true, true, false, false, true]
  const JRight: seq<bool> := [false, true, false, true, true, true]
  const JDown: seq<bool> := [true, false, false, true, true, true]
  const JLeft: seq<bool> := [true, true, true, false, true, false]
  const LUp: seq<bool> := [false, false, true, true, true, true]
  const LRight: seq<bool> := [true, false, true, false, true, true]
  const LDown: seq<bool> := [true, true, true, true, false, false]
  const LLeft: seq<bool> := [true, true, false, true, false, true]
  const OUp: seq<bool> := [true, true, true, true]
  const SUp: seq<bool> := [false, true, true, true, true, false]
  const SRight: seq<bool> := [true, false, true, true, false, true]
  const TUp: seq<bool> := [false, true, false, true, true, true]
  const TRight: seq<bool> := [true, false, true, true, true, false]
  const TDown: seq<bool> := [true, true, true, false, true, false]
  const TLeft: seq<bool> := [false, true, true, true, false, true]
  const ZUp: seq<bool> := [true, true, false, false, true, true]
  const ZRight: seq<bool> := [false, true, true, true, true, false]

  /** Number of occupied cells of a mask. */
  function Occupied(mask: seq<bool>): nat
  {
    if mask == [] then 0 else (if mask[0] then 1 else 0) + Occupied(mask[1..])
  }

  /** A mask of whole rows of the given width holding exactly four cells. */
  predicate Shaped(mask: seq<bool>, width: nat)
  {
    width > 0 && |mask| > 0 && |mask| % width == 0 && Occupied(mask) == 4
  }

  /** Every (mask, width) pair of the table is shaped. */
  lemma TableShaped()
    ensures Shaped(IUp, 1) && Shaped(IRight, 4) && Shaped(OUp, 2)
    ensures Shaped(JUp, 3) && Shaped(JRight, 2) && Shaped(JDown, 3) && Shaped(JLeft, 2)
    ensures Shaped(LUp, 3) && Shaped(LRight, 2) && Shaped(LDown, 3) && Shaped(LLeft, 2)
    ensures Shaped(SUp, 3) && Shaped(SRight, 2) && Shaped(ZUp, 3) && Shaped(ZRight, 2)
    ensures Shaped(TUp, 3) && Shaped(TRight, 2) && Shaped(TDown, 3) && Shaped(TLeft, 2)
  {
  }

  /** Some occupied cell of the mask lies in column `col` of its bounding box. */
  ghost predicate ColumnOccupied(mask: seq<bool>, width: nat, col: nat)
    requires width > 0
  {
    exists offset :: 0 <= offset < |mask| && mask[offset] && offset % width == col
  }

  /** The mask and bounding width of a kind in a rotation (the colour each
      kind is drawn in is not modelled). Every mask is a whole number of rows and
      holds exactly four cells. */
  function Cells(shape: TetronimoShape, rotation: TetronimoRotation): (r: (seq<bool>, nat))
    ensures r.1 > 0 && |r.0| > 0 && |r.0| % r.1 == 0
    ensures Occupied(r.0) == 4
  {
    TableShaped();
    match shape
    case IShape => (match rotation
      case North => (IUp, 1)
      case East => (IRight, 4)
      case South => (IUp, 1)
      case West => (IRight, 4))
    case JShape => (match rotation
      case North => (JUp, 3)
      case East => (JRight, 2)
      case South => (JDown, 3)
      case West => (JLeft, 2))
    case LShape => (match rotation
      case North => (LUp, 3)
      case East => (LRight, 2)
      case South => (LDown, 3)
      case West => (LLeft, 2))
    case OShape => (match rotation
      case North => (OUp, 2)
      case East => (OUp, 2)
      case South => (OUp, 2)
      case West => (OUp, 2))
    case SShape => (match rotation
      case North => (SUp, 3)
      case East => (SRight, 2)
      case South => (SUp, 3)
      case West => (SRight, 2))
    case TShape => (match rotation
      case North => (TUp, 3)
      case East => (TRight, 2)
      case South => (TDown, 3)
      case West => (TLeft, 2))
    case ZShape => (match rotation
      case North => (ZUp, 3)
      case East => (ZRight, 2)
      case South => (ZUp, 3)
      case West => (ZRight, 2))
  }

  /** Widths per kind: O is two wide in every rotation, I is one wide standing
      (North, South) and four wide lying (East, West), and every other kind is
      three wide for North and South and two wide for East and West. */
  lemma CellsWidths(rotation: TetronimoRotation)
    ensures Cells(OShape, rotation).1 == 2
    ensures Cells(IShape, rotation).1 == if rotation == North || rotation == South then 1 else 4
    ensures forall s :: s != IShape && s != OShape ==>
      Cells(s, rotation).1 == if rotation == North || rotation == South then 3 else 2
  {
  }

  /** The symmetric kinds reuse masks: I, S and Z look the same after a half turn,
      and O looks the same in every rotation. */
  lemma CellsSymmetry(shape: TetronimoShape, rotation: TetronimoRotation)
    ensures shape == IShape || shape == SShape || shape == ZShape ==>
      Cells(shape, South) == Cells(shape, North) && Cells(shape, West) == Cells(shape, East)
    ensures Cells(OShape, rotation) == (OUp, 2)
  {
  }

  /** For each mask, an occupied offset in its leftmost and one in its rightmost
      column (used only as proof witnesses). */
  ghost function EdgeOffsets(shape: TetronimoShape, rotation: TetronimoRotation): (nat, nat)
  {
    match (shape, rotation)
    case (IShape, North) => (0, 0)
    case (IShape, East) => (0, 3)
    case (IShape, South) => (0, 0)
    case (IShape, West) => (0, 3)
    case (JShape, North) => (0, 2)
    case (JShape, East) => (4, 1)
    case (JShape, South) => (0, 5)
    case (JShape, West) => (0, 1)
    case (LShape, North) => (3, 2)
    case (LShape, East) => (0, 5)
    case (LShape, South) => (0, 2)
    case (LShape, West) => (0, 1)
    case (OShape, _) => (0, 1)
    case (SShape, North) => (3, 2)
    case (SShape, East) => (0, 3)
    case (SShape, South) => (3, 2)
    case (SShape, West) => (0, 3)
    case (TShape, North) => (3, 5)
    case (TShape, East) => (0, 3)
    case (TShape, South) => (0, 2)
    case (TShape, West) => (2, 1)
    case (ZShape, North) => (0, 5)
    case (ZShape, East) => (2, 1)
    case (ZShape, South) => (0, 5)
    case (ZShape, West) => (2, 1)
  }

  /** Every mask has an occupied cell in its leftmost and in its rightmost column,
      so the bounding width is the true width of the piece. */
  /** `left` is a present cell in the mask's first column and `right` one in
      its last. */
  ghost predicate EdgeCells(mask: seq<bool>, width: nat, left: nat, right: nat)
    requires width > 0
  {
    left < |mask| && mask[left] && left % width == 0
    && right < |mask| && mask[right] && right % width == width - 1
  }

  /** The edge cells named by `EdgeOffsets` for every (mask, width) pair of the table. */
  lemma TableEdges()
    ensures EdgeCells(IUp, 1, 0, 0) && EdgeCells(IRight, 4, 0, 3) && EdgeCells(OUp, 2, 0, 1)
    ensures EdgeCells(JUp, 3, 0, 2) && EdgeCells(JRight, 2, 4, 1) && EdgeCells(JDown, 3, 0, 5) && EdgeCells(JLeft, 2, 0, 1)
    ensures EdgeCells(LUp, 3, 3, 2) && EdgeCells(LRight, 2, 0, 5) && EdgeCells(LDown, 3, 0, 2) && EdgeCells(LLeft, 2, 0, 1)
    ensures EdgeCells(SUp, 3, 3, 2) && EdgeCells(SRight, 2, 0, 3) && EdgeCells(ZUp, 3, 0, 5) && EdgeCells(ZRight, 2, 2, 1)
    ensures EdgeCells(TUp, 3, 3, 5) && EdgeCells(TRight, 2, 0, 3) && EdgeCells(TDown, 3, 0, 2) && EdgeCells(TLeft, 2, 2, 1)
  {
  }

  lemma CellsEdgeColumns(shape: TetronimoShape, rotation: TetronimoRotation)
    ensures ColumnOccupied(Cells(shape, rotation).0, Cells(shape, rotation).1, 0)
    ensures ColumnOccupied(Cells(shape, rotation).0, Cells(shape, rotation).1, Cells(shape, rotation).1 - 1)
  {
    var (mask, width) := Cells(shape, rotation);
    var (left, right) := EdgeOffsets(shape, rotation);
    TableEdges();
    assert EdgeCells(mask, width, left, right);
  }

  /** The kind the sampler returns for the random value `roll`: values 0 to 5
      give I, J, L, O, S and T in declaration order, anything else gives Z. */
  function Sample(roll: nat): (s: TetronimoShape)
    ensures roll < 6 ==> ShapeIndex(s) == roll
    ensures roll >= 6 ==> s == ZShape
  {
    match roll
    case 0 => IShape
    case 1 => JShape
    case 2 => LShape
    case 3 => OShape
    case 4 => SShape
    case 5 => TShape
    case _ => ZShape
  }

  /** Number of values the sampler's random range holds as written (`0..=5`). */
  const AsWrittenRollCount: nat := 6

  /** Number of values a range covering every kind once must hold. */
  const RollCount: nat := 7

  /** A kind drawn the way the source draws it, from a value in `0..=5`. */
  function DrawAsWritten(roll: nat): (s: TetronimoShape)
    requires roll < AsWrittenRollCount
    ensures s != ZShape
  {
    Sample(roll)
  }

  /** The draw as written can never give Z: six of the seven kinds share the range. */
  lemma DrawAsWrittenMissesZ()
    ensures forall roll: nat | roll < AsWrittenRollCount :: DrawAsWritten(roll) != ZShape
  {
  }

  /** A kind drawn from a value in `0..7`, the range that covers every kind. */
  function Draw(roll: nat): (s: TetronimoShape)
    requires roll < RollCount
    ensures ShapeIndex(s) == roll
  {
    Sample(roll)
  }

  /** Drawing over seven values is a bijection between the values and the kinds:
      every kind is drawn by exactly one value. */
  lemma DrawIsUniform()
    ensures forall roll: nat | roll < RollCount :: ShapeIndex(Draw(roll)) == roll
    ensures forall s :: ShapeIndex(s) < RollCount && Draw(ShapeIndex(s)) == s
  {
  }

  /** The active piece: its kind never changes, its rotation turns in place. */
  class Tetronimo {
    const shape: TetronimoShape
    var rotation: TetronimoRotation

    /** A piece of the given kind, pointing North. */
    constructor (shape: TetronimoShape)
      ensures this.shape == shape && rotation == North
    {
      this.shape := shape;
      rotation := North;
    }

    /** The piece's current mask and bounding width. */
    function Mask(): (seq<bool>, nat)
      reads this
    {
      Cells(shape, rotation)
    }

    /** A quarter turn clockwise; the kind is a constant field and stays as it was. */
    method Rotate()
      modifies this
      ensures rotation == Clockwise(old(rotation))
    {
      rotation := Clockwise(rotation);
    }
  }
}
