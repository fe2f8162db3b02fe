/** The playfield as a value: a flat, row-major sequence of `width * height`
    cells, each empty or holding the kind of the block that occupies it.
    The functions here are the specifications the game loop's arena methods
    are proved against: clearing a row, one pass of per-cell gravity, the
    repeated passes that settle the arena, and the top-to-bottom row scan. */
module Arena {
  import opened Pieces

  datatype Option<T> = None | Some(value: T)

  type Cell = Option<TetronimoShape>

  /** An arena of `n` empty cells. */
  function EmptyArena(n: nat): (r: seq<Cell>)
    ensures |r| == n && forall i :: 0 <= i < n ==> r[i] == None
  {
    seq(n, _ => None)
  }

  /** Number of occupied cells. */
  function BlockCount(arena: seq<Cell>): nat
  {
    if arena == [] then 0 else (if arena[0].Some? then 1 else 0) + BlockCount(arena[1..])
  }

  /** Row `row` of a `width`-wide arena fits inside a `width * height` arena. */
  lemma RowFits(width: nat, height: nat, row: nat)
    requires row < height
    ensures width * row + width <= width * height
  {
    var k := height - row - 1;
    assert width * height == width * (row + 1 + k);
    assert width * (row + 1 + k) == width * row + width + width * k;
  }

  /** The cell at column `x` of row `y`. */
  function CellAt(arena: seq<Cell>, width: nat, x: nat, y: nat): Cell
    requires x < width && width * y + x < |arena|
  {
    arena[width * y + x]
  }

  /** Every cell of row `row` is occupied. */
  predicate RowComplete(arena: seq<Cell>, width: nat, row: nat)
    requires width * row + width <= |arena|
  {
    forall x | 0 <= x < width :: CellAt(arena, width, x, row).Some?
  }

  /** The arena with every cell of row `row` emptied (what drop_rows leaves). */
  function ClearRow(arena: seq<Cell>, width: nat, row: nat): seq<Cell>
  {
    seq(|arena|, i requires 0 <= i < |arena| =>
      if width * row <= i < width * row + width then None else arena[i])
  }

  /** The block at `block` has an empty cell directly below it, inside the arena. */
  predicate CanDrop(arena: seq<Cell>, width: nat, block: nat)
    requires block < |arena|
  {
    arena[block].Some? && block + width < |arena| && arena[block + width].None?
  }

  /** One visit of a drop_blocks pass at index `block`: a block that can drop
      moves one row down and leaves its cell empty; otherwise nothing changes. */
  function DropCell(arena: seq<Cell>, width: nat, block: nat): seq<Cell>
    requires block < |arena|
  {
    if CanDrop(arena, width, block) then arena[block + width := arena[block]][block := None]
    else arena
  }

  /** The arena after a drop_blocks pass has visited indices `0 .. upto-1`, in order. */
  function PassTo(arena: seq<Cell>, width: nat, upto: nat): (r: seq<Cell>)
    requires upto <= |arena|
    ensures |r| == |arena|
  {
    if upto == 0 then arena else DropCell(PassTo(arena, width, upto - 1), width, upto - 1)
  }

  /** One full drop_blocks pass. */
  function Pass(arena: seq<Cell>, width: nat): (r: seq<Cell>)
  {
    PassTo(arena, width, |arena|)
  }

  /** No block above the bottom row has an empty cell directly below it. */
  predicate Settled(arena: seq<Cell>, width: nat)
  {
    forall block | 0 <= block < |arena| :: !CanDrop(arena, width, block)
  }

  // A termination measure for the gravity passes: the sum, over occupied
  // cells, of the distance from the cell to the end of the arena. A block
  // that drops one row lowers it by exactly `width`.

  function Weight(arena: seq<Cell>, i: nat): nat
    requires i < |arena|
  {
    if arena[i].Some? then |arena| - i else 0
  }

  function PotentialFrom(arena: seq<Cell>, i: nat): nat
    requires i <= |arena|
    decreases |arena| - i
  {
    if i == |arena| then 0 else Weight(arena, i) + PotentialFrom(arena, i + 1)
  }

  function Potential(arena: seq<Cell>): nat
  {
    PotentialFrom(arena, 0)
  }

  lemma {:induction false} PotentialFromUpdate(arena: seq<Cell>, j: nat, v: Cell, i: nat)
    requires j < |arena| && i <= |arena|
    ensures i <= j ==> PotentialFrom(arena[j := v], i) + Weight(arena, j) == PotentialFrom(arena, i) + Weight(arena[j := v], j)
    ensures j < i ==> PotentialFrom(arena[j := v], i) == PotentialFrom(arena, i)
    decreases |arena| - i
  {
    if i < |arena| {
      PotentialFromUpdate(arena, j, v, i + 1);
    }
  }

  /** A drop lowers the measure by `width` and keeps every block: the arena is
      the same multiset of cells. Anything else leaves the arena as it was. */
  lemma DropCellEffect(arena: seq<Cell>, width: nat, block: nat)
    requires block < |arena|
    ensures |DropCell(arena, width, block)| == |arena|
    ensures multiset(DropCell(arena, width, block)) == multiset(arena)
    ensures CanDrop(arena, width, block) ==> Potential(DropCell(arena, width, block)) + width == Potential(arena)
    ensures !CanDrop(arena, width, block) ==> DropCell(arena, width, block) == arena
  {
    if CanDrop(arena, width, block) {
      var moved := arena[block + width := arena[block]];
      PotentialFromUpdate(arena, block + width, arena[block], 0);
      PotentialFromUpdate(moved, block, None, 0);
      assert multiset(moved) == multiset(arena) - multiset{None} + multiset{arena[block]};
    }
  }

  /** A drop moves a block without losing or gaining one. */
  lemma DropCellBlocks(arena: seq<Cell>, width: nat, block: nat)
    requires block < |arena|
    ensures multiset(DropCell(arena, width, block)) == multiset(arena)
  {
    if CanDrop(arena, width, block) {
      var moved := arena[block + width := arena[block]];
      assert multiset(moved) == multiset(arena) - multiset{None} + multiset{arena[block]};
    }
  }

  /** Part of a pass either changed nothing or lowered the measure strictly. */
  lemma {:induction false} PassToProgress(arena: seq<Cell>, width: nat, upto: nat)
    requires upto <= |arena|
    ensures PassTo(arena, width, upto) == arena || Potential(PassTo(arena, width, upto)) < Potential(arena)
  {
    if upto > 0 {
      PassToProgress(arena, width, upto - 1);
      DropCellEffect(PassTo(arena, width, upto - 1), width, upto - 1);
    }
  }

  /** Part of a pass never loses or gains a block. */
  lemma {:induction false} PassToBlocks(arena: seq<Cell>, width: nat, upto: nat)
    requires upto <= |arena|
    ensures multiset(PassTo(arena, width, upto)) == multiset(arena)
  {
    if upto > 0 {
      var before := PassTo(arena, width, upto - 1);
      PassToBlocks(arena, width, upto - 1);
      DropCellBlocks(before, width, upto - 1);
      assert PassTo(arena, width, upto) == DropCell(before, width, upto - 1);
    }
  }

  lemma {:induction false} PassToMonotone(arena: seq<Cell>, width: nat, from: nat, upto: nat)
    requires from <= upto <= |arena|
    ensures Potential(PassTo(arena, width, upto)) <= Potential(PassTo(arena, width, from))
    decreases upto - from
  {
    if from < upto {
      PassToMonotone(arena, width, from, upto - 1);
      DropCellEffect(PassTo(arena, width, upto - 1), width, upto - 1);
    }
  }

  /** A pass that changes nothing finds no block that can drop. */
  lemma PassFixedIsSettled(arena: seq<Cell>, width: nat)
    requires Pass(arena, width) == arena
    ensures Settled(arena, width)
  {
    forall block | 0 <= block < |arena|
      ensures !CanDrop(arena, width, block)
    {
      PassToProgress(arena, width, block);
      PassToMonotone(arena, width, block, |arena|);
      PassToProgress(arena, width, block + 1);
      PassToMonotone(arena, width, block + 1, |arena|);
      assert PassTo(arena, width, block) == arena;
      assert PassTo(arena, width, block + 1) == arena;
      DropCellEffect(arena, width, block);
    }
  }

  /** A settled arena passes through a pass unchanged. */
  lemma SettledPassFixed(arena: seq<Cell>, width: nat)
    requires Settled(arena, width)
    ensures Pass(arena, width) == arena
  {
    forall upto | 0 <= upto <= |arena|
      ensures PassTo(arena, width, upto) == arena
    {
      SettledPassToFixed(arena, width, upto);
    }
  }

  lemma {:induction false} SettledPassToFixed(arena: seq<Cell>, width: nat, upto: nat)
    requires Settled(arena, width) && upto <= |arena|
    ensures PassTo(arena, width, upto) == arena
  {
    if upto > 0 {
      SettledPassToFixed(arena, width, upto - 1);
    }
  }

  /** drop_blocks: passes repeated until one changes nothing. */
  function Settle(arena: seq<Cell>, width: nat): (r: seq<Cell>)
    ensures |r| == |arena|
    decreases Potential(arena)
  {
    var next := Pass(arena, width);
    if next == arena then arena
    else
      PassToProgress(arena, width, |arena|);
      Settle(next, width)
  }

  /** The settled arena is a fixed point of a pass. */
  lemma {:induction false} SettleIsFixed(arena: seq<Cell>, width: nat)
    ensures Pass(Settle(arena, width), width) == Settle(arena, width)
    decreases Potential(arena)
  {
    if Pass(arena, width) != arena {
      PassToProgress(arena, width, |arena|);
      SettleIsFixed(Pass(arena, width), width);
    }
  }

  /** After drop_blocks no block has an empty cell below it, and on an arena
      that is already settled drop_blocks changes nothing. */
  lemma SettleSettles(arena: seq<Cell>, width: nat)
    ensures Settled(Settle(arena, width), width)
    ensures Settled(arena, width) ==> Settle(arena, width) == arena
  {
    SettleIsFixed(arena, width);
    PassFixedIsSettled(Settle(arena, width), width);
    if Settled(arena, width) {
      SettledPassFixed(arena, width);
    }
  }

  /** The kinds of the blocks met going down from index `i` one row at a time. */
  function KindsFrom(arena: seq<Cell>, width: nat, i: nat): seq<TetronimoShape>
    requires width > 0
    decreases |arena| - i
  {
    if i >= |arena| then []
    else (if arena[i].Some? then [arena[i].value] else []) + KindsFrom(arena, width, i + width)
  }

  /** The kinds of column `col`, top to bottom. */
  function ColumnKinds(arena: seq<Cell>, width: nat, col: nat): seq<TetronimoShape>
    requires col < width
  {
    KindsFrom(arena, width, col)
  }

  /** A drop changes the walk down a column only for a walk that starts at the
      cell the block lands on. */
  lemma {:induction false} DropCellKinds(arena: seq<Cell>, width: nat, block: nat, i: nat)
    requires width > 0 && block < |arena| && CanDrop(arena, width, block)
    requires i != block + width
    ensures KindsFrom(DropCell(arena, width, block), width, i) == KindsFrom(arena, width, i)
    decreases |arena| - i
  {
    if i < |arena| {
      if i == block {
        DropCellKinds(arena, width, block, block + 2 * width);
        DropCellKindsFromBlock(arena, width, block);
      } else {
        DropCellKinds(arena, width, block, i + width);
        assert DropCell(arena, width, block)[i] == arena[i];
      }
    }
  }

  /** The walk from the dropping block meets it one row lower instead, so it
      sees the same kinds once the walks from two rows below agree. */
  lemma DropCellKindsFromBlock(arena: seq<Cell>, width: nat, block: nat)
    requires width > 0 && block < |arena| && CanDrop(arena, width, block)
    requires KindsFrom(DropCell(arena, width, block), width, block + 2 * width) == KindsFrom(arena, width, block + 2 * width)
    ensures KindsFrom(DropCell(arena, width, block), width, block) == KindsFrom(arena, width, block)
  {
    var dropped := DropCell(arena, width, block);
    assert dropped == arena[block + width := arena[block]][block := None];
    assert dropped[block].None? && dropped[block + width] == arena[block];
    assert KindsFrom(dropped, width, block) == KindsFrom(dropped, width, block + width);
    assert KindsFrom(dropped, width, block + width)
      == [arena[block].value] + KindsFrom(dropped, width, block + 2 * width);
    assert KindsFrom(arena, width, block + width) == KindsFrom(arena, width, block + 2 * width);
  }

  lemma {:induction false} PassToKinds(arena: seq<Cell>, width: nat, upto: nat, col: nat)
    requires col < width && upto <= |arena|
    ensures ColumnKinds(PassTo(arena, width, upto), width, col) == ColumnKinds(arena, width, col)
  {
    if upto > 0 {
      PassToKinds(arena, width, upto - 1, col);
      var before := PassTo(arena, width, upto - 1);
      if CanDrop(before, width, upto - 1) {
        DropCellKinds(before, width, upto - 1, col);
      }
    }
  }

  /** drop_blocks keeps every block: the arena holds the same multiset of
      cells, hence the same number of blocks, and every column holds the same
      kinds in the same top-to-bottom order, so no block changes column. */
  lemma {:induction false} SettlePreserves(arena: seq<Cell>, width: nat)
    ensures multiset(Settle(arena, width)) == multiset(arena)
    ensures BlockCount(Settle(arena, width)) == BlockCount(arena)
    ensures forall col | 0 <= col < width :: ColumnKinds(Settle(arena, width), width, col) == ColumnKinds(arena, width, col)
    decreases Potential(arena)
  {
    var next := Pass(arena, width);
    if next != arena {
      PassToProgress(arena, width, |arena|);
      PassToBlocks(arena, width, |arena|);
      SettlePreserves(next, width);
      forall col | 0 <= col < width
        ensures ColumnKinds(next, width, col) == ColumnKinds(arena, width, col)
      {
        PassToKinds(arena, width, |arena|, col);
      }
    }
    BlockCountMultiset(arena);
    BlockCountMultiset(Settle(arena, width));
  }

  lemma {:induction false} BlockCountMultiset(arena: seq<Cell>)
    ensures BlockCount(arena) + multiset(arena)[None] == |arena|
  {
    if arena != [] {
      BlockCountMultiset(arena[1..]);
      assert arena == [arena[0]] + arena[1..];
    }
  }

  lemma {:induction false} BlockCountAppend(a: seq<Cell>, b: seq<Cell>)
    ensures BlockCount(a + b) == BlockCount(a) + BlockCount(b)
  {
    if a != [] {
      BlockCountAppend(a[1..], b);
      assert (a + b)[0] == a[0];
      assert (a + b)[1..] == a[1..] + b;
    } else {
      assert a + b == b;
    }
  }

  lemma {:induction false} BlockCountAll(a: seq<Cell>)
    ensures (forall i | 0 <= i < |a| :: a[i].Some?) ==> BlockCount(a) == |a|
    ensures (forall i | 0 <= i < |a| :: a[i].None?) ==> BlockCount(a) == 0
  {
    if a != [] {
      BlockCountAll(a[1..]);
    }
  }

  /** drop_rows on a complete row removes exactly that row's `width` blocks
      and nothing else. */
  lemma ClearRowCount(arena: seq<Cell>, width: nat, row: nat)
    requires width * row + width <= |arena| && RowComplete(arena, width, row)
    ensures |ClearRow(arena, width, row)| == |arena|
    ensures BlockCount(ClearRow(arena, width, row)) + width == BlockCount(arena)
  {
    var start := width * row;
    var cleared := ClearRow(arena, width, row);
    CompleteRowBlocks(arena, width, row);
    ClearedRowBlocks(arena, width, row);
    BlockCountSplit(arena, start, start + width);
    BlockCountSplit(cleared, start, start + width);
    ClearRowOutside(arena, width, row);
  }

  /** Clearing a row leaves the cells before and after it as they were. */
  lemma ClearRowOutside(arena: seq<Cell>, width: nat, row: nat)
    requires width * row + width <= |arena|
    ensures ClearRow(arena, width, row)[..width * row] == arena[..width * row]
    ensures ClearRow(arena, width, row)[width * row + width..] == arena[width * row + width..]
  {
    var start := width * row;
    var cleared := ClearRow(arena, width, row);
    forall i | 0 <= i < |arena| && !(start <= i < start + width) ensures cleared[i] == arena[i] {
    }
    assert cleared[..start] == arena[..start];
    assert cleared[start + width..] == arena[start + width..];
  }

  /** A complete row holds `width` blocks. */
  lemma CompleteRowBlocks(arena: seq<Cell>, width: nat, row: nat)
    requires width * row + width <= |arena| && RowComplete(arena, width, row)
    ensures BlockCount(arena[width * row..width * row + width]) == width
  {
    var middle := arena[width * row..width * row + width];
    forall i | 0 <= i < width ensures middle[i].Some? {
      assert CellAt(arena, width, i, row).Some?;
    }
    BlockCountAll(middle);
  }

  /** A cleared row holds no block. */
  lemma ClearedRowBlocks(arena: seq<Cell>, width: nat, row: nat)
    requires width * row + width <= |arena|
    ensures BlockCount(ClearRow(arena, width, row)[width * row..width * row + width]) == 0
  {
    var emptied := ClearRow(arena, width, row)[width * row..width * row + width];
    forall i | 0 <= i < width ensures emptied[i].None? {
      assert emptied[i] == ClearRow(arena, width, row)[width * row + i];
    }
    BlockCountAll(emptied);
  }

  /** The block count of a sequence is the sum of the counts of three
      consecutive pieces of it. */
  lemma BlockCountSplit(s: seq<Cell>, lo: nat, hi: nat)
    requires lo <= hi <= |s|
    ensures BlockCount(s) == BlockCount(s[..lo]) + BlockCount(s[lo..hi]) + BlockCount(s[hi..])
  {
    assert s[..hi] == s[..lo] + s[lo..hi];
    assert s == s[..hi] + s[hi..];
    BlockCountAppend(s[..lo], s[lo..hi]);
    BlockCountAppend(s[..hi], s[hi..]);
  }

  /** remove_complete_rows from row `row` downwards: each complete row met on
      the current arena is cleared and the arena settled before the scan moves
      to the next row. Gives the final arena and the number of rows cleared. */
  function ScanRows(arena: seq<Cell>, width: nat, height: nat, row: nat): (r: (seq<Cell>, nat))
    requires |arena| == width * height && row <= height
    ensures |r.0| == |arena|
    decreases height - row
  {
    if row == height then (arena, 0)
    else
      RowFits(width, height, row);
      if RowComplete(arena, width, row) then
        var rest := ScanRows(Settle(ClearRow(arena, width, row), width), width, height, row + 1);
        (rest.0, rest.1 + 1)
      else ScanRows(arena, width, height, row + 1)
  }

  /** One step of the scan: a complete row is cleared, the arena settled and
      the count raised by one; any other row is passed over. */
  lemma ScanRowsStep(arena: seq<Cell>, width: nat, height: nat, row: nat)
    requires |arena| == width * height && row < height && width * row + width <= |arena|
    ensures RowComplete(arena, width, row) ==>
      var rest := ScanRows(Settle(ClearRow(arena, width, row), width), width, height, row + 1);
      ScanRows(arena, width, height, row) == (rest.0, rest.1 + 1)
    ensures !RowComplete(arena, width, row) ==>
      ScanRows(arena, width, height, row) == ScanRows(arena, width, height, row + 1)
  {
  }

  /** No row is complete among rows `row .. height-1`. */
  predicate NoCompleteRow(arena: seq<Cell>, width: nat, height: nat, row: nat)
  {
    forall y | row <= y < height && width * y + width <= |arena| :: !RowComplete(arena, width, y)
  }

  /** The scan clears at most one row per row it visits. */
  lemma {:induction false} ScanRowsBound(arena: seq<Cell>, width: nat, height: nat, row: nat)
    requires |arena| == width * height && row <= height
    ensures ScanRows(arena, width, height, row).1 <= height - row
    decreases height - row
  {
    if row < height {
      RowFits(width, height, row);
      if RowComplete(arena, width, row) {
        ScanRowsBound(Settle(ClearRow(arena, width, row), width), width, height, row + 1);
      } else {
        ScanRowsBound(arena, width, height, row + 1);
      }
    }
  }

  /** The scan clears no row exactly when no row is complete, and then it
      leaves the arena as it was. */
  lemma {:induction false} ScanRowsNone(arena: seq<Cell>, width: nat, height: nat, row: nat)
    requires |arena| == width * height && row <= height
    ensures ScanRows(arena, width, height, row).1 == 0 <==> NoCompleteRow(arena, width, height, row)
    ensures ScanRows(arena, width, height, row).1 == 0 ==> ScanRows(arena, width, height, row).0 == arena
    decreases height - row
  {
    if row < height {
      RowFits(width, height, row);
      if !RowComplete(arena, width, row) {
        ScanRowsNone(arena, width, height, row + 1);
      }
    }
  }

  /** Arithmetic step for the block count of a scan that clears one more row. */
  lemma MulSucc(k: nat, width: nat)
    ensures (k + 1) * width == k * width + width
  {
  }

  /** Each row the scan clears takes exactly `width` blocks with it; no other
      block is lost or gained. */
  lemma {:induction false} ScanRowsBlocks(arena: seq<Cell>, width: nat, height: nat, row: nat)
    requires |arena| == width * height && row <= height
    ensures BlockCount(ScanRows(arena, width, height, row).0) + ScanRows(arena, width, height, row).1 * width
      == BlockCount(arena)
    decreases height - row
  {
    if row < height {
      RowFits(width, height, row);
      if RowComplete(arena, width, row) {
        var cleared := ClearRow(arena, width, row);
        ClearRowCount(arena, width, row);
        SettlePreserves(cleared, width);
        var rest := ScanRows(Settle(cleared, width), width, height, row + 1);
        ScanRowsBlocks(Settle(cleared, width), width, height, row + 1);
        assert ScanRows(arena, width, height, row) == (rest.0, rest.1 + 1);
        MulSucc(rest.1, width);
      } else {
        ScanRowsBlocks(arena, width, height, row + 1);
      }
    }
  }

  /** When the scan clears a row, the arena it leaves is settled. (It may still
      hold a complete row above the last one cleared: blocks fall into rows the
      scan has passed, which is why the game loop scans again on its next step.) */
  lemma {:induction false} ScanRowsSettled(arena: seq<Cell>, width: nat, height: nat, row: nat)
    requires |arena| == width * height && row <= height
    requires ScanRows(arena, width, height, row).1 > 0
    ensures Settled(ScanRows(arena, width, height, row).0, width)
    decreases height - row
  {
    RowFits(width, height, row);
    if RowComplete(arena, width, row) {
      var settled := Settle(ClearRow(arena, width, row), width);
      SettleSettles(ClearRow(arena, width, row), width);
      if ScanRows(settled, width, height, row + 1).1 > 0 {
        ScanRowsSettled(settled, width, height, row + 1);
      } else {
        ScanRowsNone(settled, width, height, row + 1);
      }
    } else {
      ScanRowsSettled(arena, width, height, row + 1);
    }
  }

  // The examples below are the fixtures of the game loop's own unit tests.

  /** A single block in the top-left cell of a 2x2 arena falls to the
      bottom-left cell; every other cell stays empty. */
  lemma DropSingleBlock()
    ensures Settle([Some(JShape), None, None, None], 2) == [None, None, Some(JShape), None]
  {
    var start: seq<Cell> := [Some(JShape), None, None, None];
    var dropped: seq<Cell> := [None, None, Some(JShape), None];
    assert PassTo(start, 2, 1) == dropped;
    assert PassTo(start, 2, 2) == dropped;
    assert PassTo(start, 2, 3) == dropped;
    assert Pass(start, 2) == dropped;
    assert PassTo(dropped, 2, 1) == dropped;
    assert PassTo(dropped, 2, 2) == dropped;
    assert PassTo(dropped, 2, 3) == dropped;
    assert Pass(dropped, 2) == dropped;
  }

  /** On an empty 2x2 arena the scan clears nothing. */
  lemma ScanEmptyArena()
    ensures ScanRows(EmptyArena(4), 2, 2, 0) == (EmptyArena(4), 0)
  {
    var empty := EmptyArena(4);
    assert !RowComplete(empty, 2, 0) by { assert CellAt(empty, 2, 0, 0) == None; }
    assert !RowComplete(empty, 2, 1) by { assert CellAt(empty, 2, 0, 1) == None; }
    ScanRowsNone(empty, 2, 2, 0);
  }

  /** With only the bottom row of a 3x2 arena full, the scan clears one row
      and leaves the arena empty. */
  lemma ScanSingleRowAtBottom()
    ensures ScanRows([None, None, None, Some(IShape), Some(IShape), Some(IShape)], 3, 2, 0) == (EmptyArena(6), 1)
  {
    var start: seq<Cell> := [None, None, None, Some(IShape), Some(IShape), Some(IShape)];
    var empty := EmptyArena(6);
    assert !RowComplete(start, 3, 0) by { assert CellAt(start, 3, 0, 0) == None; }
    assert RowComplete(start, 3, 1) by {
      assert CellAt(start, 3, 0, 1).Some? && CellAt(start, 3, 1, 1).Some? && CellAt(start, 3, 2, 1).Some?;
    }
    assert ClearRow(start, 3, 1) == empty;
    SettleSettles(empty, 3);
    ScanRowsNone(empty, 3, 2, 2);
  }

  /** With the whole 3x2 arena full, the scan clears both rows. */
  lemma ScanAllRows()
    ensures ScanRows(seq(6, _ => Some(ZShape)), 3, 2, 0) == (EmptyArena(6), 2)
  {
    var full: seq<Cell> := seq(6, _ => Some(ZShape));
    var bottom: seq<Cell> := [None, None, None, Some(ZShape), Some(ZShape), Some(ZShape)];
    var empty := EmptyArena(6);
    assert RowComplete(full, 3, 0) by {
      assert CellAt(full, 3, 0, 0).Some? && CellAt(full, 3, 1, 0).Some? && CellAt(full, 3, 2, 0).Some?;
    }
    assert ClearRow(full, 3, 0) == bottom;
    assert Settled(bottom, 3);
    SettleSettles(bottom, 3);
    assert RowComplete(bottom, 3, 1) by {
      assert CellAt(bottom, 3, 0, 1).Some? && CellAt(bottom, 3, 1, 1).Some? && CellAt(bottom, 3, 2, 1).Some?;
    }
    assert ClearRow(bottom, 3, 1) == empty;
    SettleSettles(empty, 3);
  }
}
