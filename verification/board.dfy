/**
  The playing field: a height x width grid of integer cell codes, where 0
  is empty, a positive value is a normal piece colour and a negative value
  is a special piece code. Placement writes a piece's code into its
  in-bounds cells and then applies the piece's special effect; line
  clearing is a stable compaction of the non-full rows.
 */
module Boards {
  import opened Blocks

  datatype Board = Board(width: nat, height: nat, grid: seq<seq<int>>)

  /** The grid has `height` rows of `width` cells each. */
  predicate Valid(b: Board) {
    |b.grid| == b.height && forall y :: 0 <= y < |b.grid| ==> |b.grid[y]| == b.width
  }

  /** A row of `w` empty cells. */
  function EmptyRow(w: nat): (r: seq<int>)
    ensures |r| == w && forall i :: 0 <= i < w ==> r[i] == 0
  {
    seq(w, _ => 0)
  }

  /** `n` empty rows of width `w`. */
  function EmptyRows(n: nat, w: nat): (r: seq<seq<int>>)
    ensures |r| == n && forall i :: 0 <= i < n ==> r[i] == EmptyRow(w)
  {
    seq(n, _ => EmptyRow(w))
  }

  /** The board as created: every cell empty. */
  function NewBoard(width: nat, height: nat): (b: Board)
    ensures Valid(b) && b.width == width && b.height == height
    ensures forall y, x :: 0 <= y < height && 0 <= x < width ==> b.grid[y][x] == 0
  {
    Board(width, height, EmptyRows(height, width))
  }

  /** `clear`: an all-empty grid of the same dimensions. */
  function Clear(b: Board): (r: Board)
    ensures Valid(r) && r.width == b.width && r.height == b.height
    ensures forall y, x :: 0 <= y < r.height && 0 <= x < r.width ==> r.grid[y][x] == 0
  {
    NewBoard(b.width, b.height)
  }

  /** `is_valid_position`: the coordinate lies on the board, which on a
      well-formed board is exactly when it indexes the grid. */
  function InBounds(b: Board, x: int, y: int): (r: bool)
    ensures Valid(b) ==> (r <==> 0 <= y < |b.grid| && 0 <= x < |b.grid[y]|)
  {
    0 <= x < b.width && 0 <= y < b.height
  }

  /** `is_cell_empty`: false off the board, otherwise whether the cell holds 0. */
  function IsCellEmpty(b: Board, x: int, y: int): (r: bool)
    requires Valid(b)
    ensures !InBounds(b, x, y) ==> !r
    ensures InBounds(b, x, y) ==> (r <==> b.grid[y][x] == 0)
  {
    if !InBounds(b, x, y) then false else b.grid[y][x] == 0
  }

  // ---------------------------------------------------------------------
  // Writing cells

  /** Write `v` at cell c when c is on the board; drop it otherwise. */
  function WriteCell(b: Board, c: Cell, v: int): (r: Board)
    requires Valid(b)
    ensures Valid(r) && r.width == b.width && r.height == b.height
  {
    if InBounds(b, c.0, c.1) then b.(grid := b.grid[c.1 := b.grid[c.1][c.0 := v]]) else b
  }

  /** Write `v` at every on-board cell of `cells`, in order. Afterwards a board
      cell holds `v` exactly when it is listed; every other cell is unchanged. */
  function WriteCells(b: Board, cells: seq<Cell>, v: int): (r: Board)
    requires Valid(b)
    decreases |cells|
    ensures Valid(r) && r.width == b.width && r.height == b.height
    ensures forall y, x :: 0 <= y < b.height && 0 <= x < b.width ==>
              r.grid[y][x] == (if (x, y) in cells then v else b.grid[y][x])
  {
    if cells == [] then b
    else
      var r := WriteCells(WriteCell(b, cells[0], v), cells[1..], v);
      assert forall c :: c in cells <==> c == cells[0] || c in cells[1..];
      r
  }

  // ---------------------------------------------------------------------
  // Special effects

  /** The explosion radius around the piece origin. */
  const ExplosionRadius := 2

  /** The cells of row `y`, columns `x` .. `hi`, as the inner explosion loop visits them. */
  function SquareRow(x: int, hi: int, y: int): seq<Cell>
    decreases hi - x + 1
  {
    if x > hi then [] else [(x, y)] + SquareRow(x + 1, hi, y)
  }

  /** The cells of rows `y` .. `yHi`, columns `xLo` .. `xHi`, as the explosion loops visit them. */
  function SquareRows(xLo: int, xHi: int, y: int, yHi: int): seq<Cell>
    decreases yHi - y + 1
  {
    if y > yHi then [] else SquareRow(xLo, xHi, y) + SquareRows(xLo, xHi, y + 1, yHi)
  }

  lemma {:induction false} SquareRowExact(x: int, hi: int, y: int, c: Cell)
    decreases hi - x + 1
    ensures c in SquareRow(x, hi, y) <==> c.1 == y && x <= c.0 <= hi
  {
    if x <= hi {
      SquareRowExact(x + 1, hi, y, c);
    }
  }

  lemma {:induction false} SquareRowsExact(xLo: int, xHi: int, y: int, yHi: int, c: Cell)
    decreases yHi - y + 1
    ensures c in SquareRows(xLo, xHi, y, yHi) <==> y <= c.1 <= yHi && xLo <= c.0 <= xHi
  {
    if y <= yHi {
      SquareRowExact(xLo, xHi, y, c);
      SquareRowsExact(xLo, xHi, y + 1, yHi, c);
    }
  }

  /** Whether (x, y) lies in the explosion square around (cx, cy). */
  predicate InBlast(cx: int, cy: int, x: int, y: int) {
    cx - ExplosionRadius <= x <= cx + ExplosionRadius && cy - ExplosionRadius <= y <= cy + ExplosionRadius
  }

  /** `_explode_area`: zero every on-board cell of the 5x5 square around (cx, cy). */
  function ExplodeArea(b: Board, cx: int, cy: int): (r: Board)
    requires Valid(b)
    ensures Valid(r) && r.width == b.width && r.height == b.height
    ensures forall y, x :: 0 <= y < b.height && 0 <= x < b.width ==>
              r.grid[y][x] == (if InBlast(cx, cy, x, y) then 0 else b.grid[y][x])
  {
    var square := SquareRows(cx - ExplosionRadius, cx + ExplosionRadius, cy - ExplosionRadius, cy + ExplosionRadius);
    forall c ensures c in square <==> InBlast(cx, cy, c.0, c.1) {
      SquareRowsExact(cx - ExplosionRadius, cx + ExplosionRadius, cy - ExplosionRadius, cy + ExplosionRadius, c);
    }
    WriteCells(b, square, 0)
  }

  /** `_rainbow_adapt`: an empty hook, so the board is unchanged. */
  function RainbowAdapt(b: Board, blk: Block): (r: Board)
    ensures r == b
  {
    b
  }

  /** `_trigger_special_effect`: dispatch on the piece's type tag. Only an
      exploding piece changes the board; freezing and rainbow are hooks
      without board effect, and an unknown tag does nothing. */
  function TriggerSpecialEffect(b: Board, blk: Block): (r: Board)
    requires Valid(b)
    ensures Valid(r) && r.width == b.width && r.height == b.height
    ensures blk.kind != "exploding" ==> r == b
  {
    if blk.kind == "exploding" then ExplodeArea(b, blk.x, blk.y)
    else if blk.kind == "freezing" then b
    else if blk.kind == "rainbow" then RainbowAdapt(b, blk)
    else b
  }

  /** `place_block`: write the piece's code into its on-board cells (off-board
      cells are dropped), then apply its special effect. */
  function PlaceBlock(b: Board, blk: Block): (r: Board)
    requires Valid(b)
    ensures Valid(r) && r.width == b.width && r.height == b.height
    ensures blk.kind != "exploding" ==>
      forall y, x :: 0 <= y < b.height && 0 <= x < b.width ==>
        r.grid[y][x] == (if (x, y) in Cells(blk) then CellValue(blk) else b.grid[y][x])
    ensures blk.kind == "exploding" ==>
      forall y, x :: 0 <= y < b.height && 0 <= x < b.width ==>
        r.grid[y][x] == (if InBlast(blk.x, blk.y, x, y) then 0
                         else if (x, y) in Cells(blk) then CellValue(blk) else b.grid[y][x])
  {
    var written := WriteCells(b, Cells(blk), CellValue(blk));
    if IsSpecial(blk) then TriggerSpecialEffect(written, blk) else written
  }

  // ---------------------------------------------------------------------
  // Line clearing

  /** A row is full when every cell is non-zero. */
  predicate FullRow(row: seq<int>) {
    forall i :: 0 <= i < |row| ==> row[i] != 0
  }

  /** The number of full rows (reference definition). */
  function CountFull(g: seq<seq<int>>): nat {
    if g == [] then 0 else (if FullRow(g[0]) then 1 else 0) + CountFull(g[1..])
  }

  /** The non-full rows in their original order (reference definition). */
  function NonFull(g: seq<seq<int>>): seq<seq<int>> {
    if g == [] then [] else (if FullRow(g[0]) then [] else [g[0]]) + NonFull(g[1..])
  }

  /** `lines_to_clear`: the indices, from `y` on, of the full rows. */
  function FullIndices(g: seq<seq<int>>, y: nat): seq<int>
    decreases |g| - y
  {
    if y >= |g| then [] else (if FullRow(g[y]) then [y] else []) + FullIndices(g, y + 1)
  }

  /** `new_grid` before padding: the rows from `y` on whose index is not listed. */
  function KeepRows(g: seq<seq<int>>, y: nat, listed: seq<int>): seq<seq<int>>
    decreases |g| - y
  {
    if y >= |g| then [] else (if y in listed then [] else [g[y]]) + KeepRows(g, y + 1, listed)
  }

  /** `new_grid.insert(0, empty row)` repeated `n` times. */
  function PrependEmpty(rows: seq<seq<int>>, n: nat, w: nat): seq<seq<int>>
    decreases n
  {
    if n == 0 then rows else PrependEmpty([EmptyRow(w)] + rows, n - 1, w)
  }

  lemma {:induction false} FullIndicesExact(g: seq<seq<int>>, y: nat)
    decreases |g| - y
    ensures y <= |g| ==> |FullIndices(g, y)| == CountFull(g[y..])
    ensures forall i :: i in FullIndices(g, y) <==> y <= i < |g| && FullRow(g[i])
  {
    if y < |g| {
      FullIndicesExact(g, y + 1);
      assert g[y..][1..] == g[y + 1..];
    } else if y == |g| {
      assert g[y..] == [];
    }
  }

  lemma {:induction false} KeepRowsIsNonFull(g: seq<seq<int>>, y: nat, listed: seq<int>)
    requires y <= |g|
    requires forall i :: y <= i < |g| ==> (i in listed <==> FullRow(g[i]))
    decreases |g| - y
    ensures KeepRows(g, y, listed) == NonFull(g[y..])
  {
    if y < |g| {
      KeepRowsIsNonFull(g, y + 1, listed);
      assert g[y..][1..] == g[y + 1..];
    } else {
      assert g[y..] == [];
    }
  }

  lemma {:induction false} PrependEmptyIsPadding(rows: seq<seq<int>>, n: nat, w: nat)
    decreases n
    ensures PrependEmpty(rows, n, w) == EmptyRows(n, w) + rows
  {
    if n > 0 {
      PrependEmptyIsPadding([EmptyRow(w)] + rows, n - 1, w);
      assert EmptyRows(n - 1, w) + ([EmptyRow(w)] + rows) == EmptyRows(n, w) + rows;
    }
  }

  /** Each row is either full and counted, or non-full and kept. */
  lemma {:induction false} CountPlusKept(g: seq<seq<int>>)
    ensures CountFull(g) + |NonFull(g)| == |g|
    ensures forall i :: 0 <= i < |NonFull(g)| ==> NonFull(g)[i] in g && !FullRow(NonFull(g)[i])
  {
    if g != [] {
      var rest := g[1..];
      CountPlusKept(rest);
      var kept := NonFull(rest);
      var skip := if FullRow(g[0]) then 0 else 1;
      assert NonFull(g) == (if FullRow(g[0]) then [] else [g[0]]) + kept;
      forall i | skip <= i < |NonFull(g)|
        ensures NonFull(g)[i] in g && !FullRow(NonFull(g)[i])
      {
        assert NonFull(g)[i] == kept[i - skip];
        assert kept[i - skip] in rest;
      }
    }
  }

  /** No full row means nothing to count and nothing removed. */
  lemma {:induction false} NoFullRows(g: seq<seq<int>>)
    requires forall i :: 0 <= i < |g| ==> !FullRow(g[i])
    ensures CountFull(g) == 0 && NonFull(g) == g
  {
    if g != [] {
      NoFullRows(g[1..]);
    }
  }

  /** A grid with a full row has a positive count. */
  lemma {:induction false} SomeFullRow(g: seq<seq<int>>, k: int)
    requires 0 <= k < |g| && FullRow(g[k])
    ensures CountFull(g) > 0
  {
    if k > 0 {
      SomeFullRow(g[1..], k - 1);
    }
  }

  /** Filtering distributes over concatenation. */
  lemma {:induction false} NonFullAppend(a: seq<seq<int>>, b: seq<seq<int>>)
    ensures NonFull(a + b) == NonFull(a) + NonFull(b)
  {
    if a != [] {
      assert (a + b)[1..] == a[1..] + b;
      NonFullAppend(a[1..], b);
    } else {
      assert a + b == b;
    }
  }

  /** `clear_lines`: returns the board after compaction and the number of
      cleared rows. The count is the number of full rows; the first `count`
      rows are empty and the rest are exactly the non-full rows in their
      original order; with no full row nothing changes. */
  function ClearLines(b: Board): (r: (Board, nat))
    requires Valid(b)
    ensures Valid(r.0) && r.0.width == b.width && r.0.height == b.height
    ensures r.1 == CountFull(b.grid) && r.1 <= b.height
    ensures r.1 == 0 ==> r.0 == b
    ensures forall i :: 0 <= i < r.1 ==> r.0.grid[i] == EmptyRow(b.width)
    ensures r.0.grid[r.1..] == NonFull(b.grid)
  {
    var listed := FullIndices(b.grid, 0);
    FullIndicesExact(b.grid, 0);
    assert b.grid[0..] == b.grid;
    if |listed| == 0 then
      assert forall i :: 0 <= i < |b.grid| ==> !FullRow(b.grid[i]);
      NoFullRows(b.grid);
      (b, 0)
    else
      var kept := KeepRows(b.grid, 0, listed);
      KeepRowsIsNonFull(b.grid, 0, listed);
      PrependEmptyIsPadding(kept, |listed|, b.width);
      CountPlusKept(b.grid);
      var g := PrependEmpty(kept, |listed|, b.width);
      assert g == EmptyRows(|listed|, b.width) + NonFull(b.grid);
      assert g[|listed|..] == NonFull(b.grid);
      (b.(grid := g), |listed|)
  }

  /** `clear_lines` returns 0 exactly when no row is full. */
  lemma ClearLinesZeroIffNoFullRow(b: Board)
    requires Valid(b)
    ensures ClearLines(b).1 == 0 <==> forall y :: 0 <= y < b.height ==> !FullRow(b.grid[y])
  {
    if exists y :: 0 <= y < b.height && FullRow(b.grid[y]) {
      var y :| 0 <= y < b.height && FullRow(b.grid[y]);
      SomeFullRow(b.grid, y);
    } else {
      NoFullRows(b.grid);
    }
  }

  /** On a board at least one cell wide, clearing twice clears nothing the second time. */
  lemma ClearLinesIdempotent(b: Board)
    requires Valid(b) && b.width > 0
    ensures ClearLines(ClearLines(b).0).1 == 0
    ensures ClearLines(ClearLines(b).0).0 == ClearLines(b).0
  {
    var (r, k) := ClearLines(b);
    CountPlusKept(b.grid);
    forall y | 0 <= y < r.height
      ensures !FullRow(r.grid[y])
    {
      if y < k {
        assert r.grid[y][0] == 0;
      } else {
        assert r.grid[y] == r.grid[k..][y - k] == NonFull(b.grid)[y - k];
      }
    }
    NoFullRows(r.grid);
  }

  /** Removing the one full row at index k leaves the rows around it. */
  lemma {:induction false} NonFullSingle(g: seq<seq<int>>, k: int)
    requires 0 <= k < |g| && FullRow(g[k])
    requires forall y :: 0 <= y < |g| && y != k ==> !FullRow(g[y])
    ensures NonFull(g) == g[..k] + g[k + 1..]
  {
    var pre, post := g[..k], g[k + 1..];
    assert NonFull(pre) == pre by {
      forall i | 0 <= i < |pre| ensures !FullRow(pre[i]) {
        assert pre[i] == g[i];
      }
      NoFullRows(pre);
    }
    assert NonFull([g[k]] + post) == post by {
      forall i | 0 <= i < |post| ensures !FullRow(post[i]) {
        assert post[i] == g[k + 1 + i];
      }
      NoFullRows(post);
      assert NonFull([g[k]]) == [] by {
        assert [g[k]][1..] == [];
      }
      NonFullAppend([g[k]], post);
    }
    NonFullAppend(pre, [g[k]] + post);
    assert g == pre + ([g[k]] + post);
  }

  /** With exactly one full row, at index k, that row is removed and an empty
      row appears on top: rows above k shift down by one, rows below stay. */
  lemma ClearSingleFullRow(b: Board, k: int)
    requires Valid(b) && 0 <= k < b.height && FullRow(b.grid[k])
    requires forall y :: 0 <= y < b.height && y != k ==> !FullRow(b.grid[y])
    ensures ClearLines(b).1 == 1
    ensures ClearLines(b).0.grid == [EmptyRow(b.width)] + b.grid[..k] + b.grid[k + 1..]
  {
    NonFullSingle(b.grid, k);
    CountPlusKept(b.grid);
    var r := ClearLines(b).0;
    assert r.grid == r.grid[..1] + r.grid[1..];
    assert r.grid[..1] == [EmptyRow(b.width)];
  }
}
