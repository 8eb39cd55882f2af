/**
  Collision queries: whether a piece pose fits the board, whether a piece
  can be translated, and whether it rests on something.
 */
module Physics {
  import opened Blocks
  import opened Boards

  /** A cell is free for a piece: on the board and empty. */
  predicate Free(board: Board, c: Cell)
    requires Valid(board)
  {
    InBounds(board, c.0, c.1) && board.grid[c.1][c.0] == 0
  }

  /** The loop of `is_valid_position` over a list of cells: the first cell off
      the board, or on a filled cell, rejects the pose. */
  function ValidCells(cells: seq<Cell>, board: Board): (r: bool)
    requires Valid(board)
    ensures r <==> forall i :: 0 <= i < |cells| ==> Free(board, cells[i])
  {
    if cells == [] then true
    else
      var x, y := cells[0].0, cells[0].1;
      if !(0 <= x < board.width) || !(0 <= y < board.height) then false
      else if y >= 0 && !IsCellEmpty(board, x, y) then false
      else ValidCells(cells[1..], board)
  }

  /** `is_valid_position`: every occupied cell is on the board and empty. */
  predicate IsValidPosition(blk: Block, board: Board)
    requires Valid(board)
  {
    ValidCells(Cells(blk), board)
  }

  /** A pose is valid exactly when every occupied cell lies in 0 <= x < width,
      0 <= y < height and holds 0; in particular any cell above the top row
      makes the pose invalid, so the source's `y >= 0` guard never matters. */
  lemma ValidPositionExact(blk: Block, board: Board)
    requires Valid(board)
    ensures IsValidPosition(blk, board) <==>
      forall c :: c in Cells(blk) ==> 0 <= c.0 < board.width && 0 <= c.1 < board.height && board.grid[c.1][c.0] == 0
    ensures (exists c :: c in Cells(blk) && c.1 < 0) ==> !IsValidPosition(blk, board)
  {
  }

  /** `can_move`: translate the piece, test the pose, translate it back.
      Returns the verdict, which is the validity of the translated pose, and
      the piece as left afterwards, which is the piece it was given. */
  function CanMove(blk: Block, board: Board, dx: int, dy: int): (r: (bool, Block))
    requires Valid(board)
    ensures r.1 == blk
    ensures r.0 == IsValidPosition(Move(blk, dx, dy), board)
  {
    var moved := Move(blk, dx, dy);
    var ok := IsValidPosition(moved, board);
    MoveInverse(blk, dx, dy);
    (ok, Move(moved, -dx, -dy))
  }

  /** `can_move` holds exactly when every occupied cell, shifted by the
      offset, is free. */
  lemma CanMoveExact(blk: Block, board: Board, dx: int, dy: int)
    requires Valid(board)
    ensures CanMove(blk, board, dx, dy).0 <==>
      forall i :: 0 <= i < |Cells(blk)| ==> Free(board, (Cells(blk)[i].0 + dx, Cells(blk)[i].1 + dy))
  {
    MoveShiftsCells(blk, dx, dy);
  }

  /** The collision test for one cell: it is on the last row (or lower), or
      the cell below it, when not above the top, is not empty. */
  predicate Supported(board: Board, c: Cell)
    requires Valid(board)
  {
    c.1 + 1 >= board.height || (c.1 + 1 >= 0 && !IsCellEmpty(board, c.0, c.1 + 1))
  }

  /** Whether some cell of the list is supported. */
  function CollidesBelow(cells: seq<Cell>, board: Board): (r: bool)
    requires Valid(board)
    ensures r <==> exists i :: 0 <= i < |cells| && Supported(board, cells[i])
  {
    if cells == [] then false
    else
      if Supported(board, cells[0]) then true
      else
        var rest := CollidesBelow(cells[1..], board);
        assert forall i :: 1 <= i < |cells| ==> cells[i] == cells[1..][i - 1];
        rest
  }

  /** A piece with a supported cell cannot move down. */
  lemma RestingIsBlocked(blk: Block, board: Board)
    requires Valid(board) && CollidesBelow(Cells(blk), board)
    ensures !CanMove(blk, board, 0, 1).0
  {
    var cells := Cells(blk);
    CanMoveExact(blk, board, 0, 1);
    var i :| 0 <= i < |cells| && Supported(board, cells[i]);
    assert !Free(board, (cells[i].0, cells[i].1 + 1));
  }

  /** `handle_collisions`: the piece rests on the floor or on a filled cell,
      and then it cannot move down. */
  function HandleCollisions(blk: Block, board: Board): (r: bool)
    requires Valid(board)
    ensures r ==> !CanMove(blk, board, 0, 1).0
  {
    if CollidesBelow(Cells(blk), board) then
      RestingIsBlocked(blk, board);
      true
    else false
  }

  /** A piece that does not rest, and has no cell more than one row above
      the top, can move down. */
  lemma {:induction false} UnsupportedCanFall(blk: Block, board: Board)
    requires Valid(board) && !HandleCollisions(blk, board)
    requires forall i :: 0 <= i < |Cells(blk)| ==> Cells(blk)[i].1 >= -1
    ensures CanMove(blk, board, 0, 1).0
  {
    var cells := Cells(blk);
    forall i | 0 <= i < |cells|
      ensures Free(board, (cells[i].0, cells[i].1 + 1))
    {
      assert !Supported(board, cells[i]);
    }
    CanMoveExact(blk, board, 0, 1);
  }

  /** For a piece with no cell more than one row above the top, resting is
      exactly being unable to move down. */
  lemma RestingIffBlockedBelow(blk: Block, board: Board)
    requires Valid(board)
    requires forall i :: 0 <= i < |Cells(blk)| ==> Cells(blk)[i].1 >= -1
    ensures HandleCollisions(blk, board) <==> !CanMove(blk, board, 0, 1).0
  {
    if HandleCollisions(blk, board) {
      RestingIsBlocked(blk, board);
    } else {
      UnsupportedCanFall(blk, board);
    }
  }
}
