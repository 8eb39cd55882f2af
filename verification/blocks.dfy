/**
  Piece geometry: a falling piece is an origin, an immutable 0/1 shape
  matrix, a colour, a type tag and a rotation state in 0..3. The occupied
  cells are computed by a coordinate transform over the rotation state;
  the matrix itself is never rotated.
 */
module Blocks {

  /** A board coordinate: (column, row). */
  type Cell = (int, int)

  /** Rotation states 0, 1, 2 and 3 (0, 90, 180 and 270 degrees clockwise). */
  type Rotation = r: int | 0 <= r < 4

  /** A piece instance. `kind` is the type tag ("normal", "exploding", ...). */
  datatype Block = Block(x: int, y: int, shape: seq<seq<int>>, color: int, kind: string, rotation: Rotation)

  /** The constructor: a new piece always starts in rotation state 0. */
  function NewBlock(x: int, y: int, shape: seq<seq<int>>, color: int, kind: string): (b: Block)
    ensures b.x == x && b.y == y && b.shape == shape && b.color == color && b.kind == kind
    ensures b.rotation == 0
  {
    Block(x, y, shape, color, kind, 0)
  }

  /** An independent copy: built through the constructor, then given the
      original's rotation state. */
  function Copy(b: Block): (c: Block)
    ensures c.x == b.x && c.y == b.y && c.shape == b.shape
    ensures c.color == b.color && c.kind == b.kind && c.rotation == b.rotation
  {
    NewBlock(b.x, b.y, b.shape, b.color, b.kind).(rotation := b.rotation)
  }

  /** Moving or rotating a copy never affects the original: the original's
      pose is untouched while the copy's pose follows the operations. */
  lemma CopyIsIndependent(b: Block, dx: int, dy: int)
    ensures Move(Copy(b), dx, dy).x == b.x + dx && Move(Copy(b), dx, dy).y == b.y + dy
    ensures Rotate(Copy(b), true).rotation == (b.rotation + 1) % 4
    ensures Move(Copy(b), dx, dy).shape == b.shape && Move(Copy(b), dx, dy).kind == b.kind
  {
  }

  // ---------------------------------------------------------------------
  // Shape entries

  /** The (column, row) positions of the truthy entries of one row, from column `x` on. */
  function RowEntries(row: seq<int>, y: int, x: nat): seq<Cell>
    decreases |row| - x
  {
    if x >= |row| then []
    else if row[x] != 0 then [(x, y)] + RowEntries(row, y, x + 1)
    else RowEntries(row, y, x + 1)
  }

  /** Row-major order on positions: by row, then by column. */
  predicate RowMajorBefore(p: Cell, q: Cell) {
    p.1 < q.1 || (p.1 == q.1 && p.0 < q.0)
  }

  /** The truthy entries of the rows from `y` on, in row-major order. */
  function EntriesFrom(shape: seq<seq<int>>, y: nat): seq<Cell>
    decreases |shape| - y
  {
    if y >= |shape| then []
    else RowEntries(shape[y], y, 0) + EntriesFrom(shape, y + 1)
  }

  /** The truthy entries of a shape, in the order the source enumerates them
      (row by row, column by column). */
  function Entries(shape: seq<seq<int>>): seq<Cell> {
    EntriesFrom(shape, 0)
  }

  /** A row lists exactly its truthy columns from `x` on, left to right. */
  lemma {:induction false} RowEntriesExact(row: seq<int>, y: int, x: nat)
    decreases |row| - x
    ensures forall p :: p in RowEntries(row, y, x) <==> p.1 == y && x <= p.0 < |row| && row[p.0] != 0
    ensures forall i, j :: 0 <= i < j < |RowEntries(row, y, x)| ==>
              RowEntries(row, y, x)[i].0 < RowEntries(row, y, x)[j].0
  {
    if x < |row| {
      RowEntriesExact(row, y, x + 1);
    }
  }

  /** The number of non-zero entries of a row from column `x` on. */
  function RowTruthy(row: seq<int>, x: nat): nat
    decreases |row| - x
  {
    if x >= |row| then 0 else (if row[x] != 0 then 1 else 0) + RowTruthy(row, x + 1)
  }

  /** The number of non-zero entries in the rows from `y` on. */
  function TruthyFrom(shape: seq<seq<int>>, y: nat): nat
    decreases |shape| - y
  {
    if y >= |shape| then 0 else RowTruthy(shape[y], 0) + TruthyFrom(shape, y + 1)
  }

  /** A row has one entry per non-zero column from `x` on. */
  lemma {:induction false} RowEntriesCount(row: seq<int>, y: int, x: nat)
    decreases |row| - x
    ensures |RowEntries(row, y, x)| == RowTruthy(row, x)
  {
    if x < |row| {
      RowEntriesCount(row, y, x + 1);
    }
  }

  /** The rows from `y` on have one entry per non-zero value. */
  lemma {:induction false} EntriesCount(shape: seq<seq<int>>, y: nat)
    decreases |shape| - y
    ensures |EntriesFrom(shape, y)| == TruthyFrom(shape, y)
  {
    if y < |shape| {
      RowEntriesCount(shape[y], y, 0);
      EntriesCount(shape, y + 1);
    }
  }

  /** The rows from `y` on list exactly their truthy positions, in row-major order. */
  lemma {:induction false} EntriesFromExact(shape: seq<seq<int>>, y: nat)
    decreases |shape| - y
    ensures forall p :: p in EntriesFrom(shape, y) <==>
              y <= p.1 < |shape| && 0 <= p.0 < |shape[p.1]| && shape[p.1][p.0] != 0
    ensures forall i, j :: 0 <= i < j < |EntriesFrom(shape, y)| ==>
              RowMajorBefore(EntriesFrom(shape, y)[i], EntriesFrom(shape, y)[j])
  {
    if y < |shape| {
      var head := RowEntries(shape[y], y, 0);
      var tail := EntriesFrom(shape, y + 1);
      RowEntriesExact(shape[y], y, 0);
      EntriesFromExact(shape, y + 1);
      var r := head + tail;
      forall i, j | 0 <= i < j < |r|
        ensures RowMajorBefore(r[i], r[j])
      {
        if j < |head| {
        } else if i >= |head| {
          assert r[i] == tail[i - |head|] && r[j] == tail[j - |head|];
        } else {
          assert r[i] in head && r[j] in tail;
        }
      }
    }
  }

  /** A position is an entry exactly when it indexes a truthy matrix element. */
  lemma EntriesExact(shape: seq<seq<int>>, p: Cell)
    ensures p in Entries(shape) <==> 0 <= p.1 < |shape| && 0 <= p.0 < |shape[p.1]| && shape[p.1][p.0] != 0
  {
    EntriesFromExact(shape, 0);
  }

  /** No truthy entry is listed twice. */
  lemma EntriesDistinct(shape: seq<seq<int>>)
    ensures forall i, j :: 0 <= i < j < |Entries(shape)| ==> Entries(shape)[i] != Entries(shape)[j]
  {
    EntriesFromExact(shape, 0);
  }

  // ---------------------------------------------------------------------
  // Rotation transform

  /** The relative offset of matrix position (x, y) in rotation state `rot`.
      `size` is the number of ROWS of the shape, also for non-square shapes. */
  function Transform(rot: Rotation, size: int, x: int, y: int): Cell {
    if rot == 0 then (x, y)
    else if rot == 1 then (size - 1 - y, x)
    else if rot == 2 then (size - 1 - x, size - 1 - y)
    else (y, size - 1 - x)
  }

  /** The matrix position that `Transform` sends to offset (a, b). */
  function Untransform(rot: Rotation, size: int, a: int, b: int): (p: Cell)
    ensures Transform(rot, size, p.0, p.1) == (a, b)
  {
    if rot == 0 then (a, b)
    else if rot == 1 then (b, size - 1 - a)
    else if rot == 2 then (size - 1 - a, size - 1 - b)
    else (size - 1 - b, a)
  }

  /** Every rotation transform is a bijection on integer pairs. */
  lemma TransformBijective(rot: Rotation, size: int, x: int, y: int, a: int, b: int)
    ensures Untransform(rot, size, Transform(rot, size, x, y).0, Transform(rot, size, x, y).1) == (x, y)
    ensures Transform(rot, size, x, y) == (a, b) <==> (x, y) == Untransform(rot, size, a, b)
  {
  }

  /** A clockwise quarter turn of an offset inside a box of `size` rows. */
  function QuarterTurn(size: int, p: Cell): Cell {
    (size - 1 - p.1, p.0)
  }

  /** `k` successive quarter turns. */
  function Turns(k: nat, size: int, p: Cell): Cell {
    if k == 0 then p else QuarterTurn(size, Turns(k - 1, size, p))
  }

  /** Rotation state `rot` is `rot` clockwise quarter turns of the matrix
      position, and a further turn from state 3 comes back to state 0. */
  lemma {:induction false} TransformIsTurns(rot: Rotation, size: int, x: int, y: int)
    ensures Transform(rot, size, x, y) == Turns(rot, size, (x, y))
    ensures Turns(4, size, (x, y)) == (x, y)
  {
    var t0 := (x, y);
    var t1 := QuarterTurn(size, t0);
    var t2 := QuarterTurn(size, t1);
    var t3 := QuarterTurn(size, t2);
    assert Turns(1, size, t0) == t1 by { assert Turns(0, size, t0) == t0; }
    assert Turns(2, size, t0) == t2;
    assert Turns(3, size, t0) == t3;
    assert Turns(4, size, t0) == QuarterTurn(size, t3);
  }

  // ---------------------------------------------------------------------
  // Occupied cells

  /** The board cell of matrix position p for piece b. */
  function Place(b: Block, p: Cell): Cell {
    var t := Transform(b.rotation, |b.shape|, p.0, p.1);
    (b.x + t.0, b.y + t.1)
  }

  /** Whether board cell c is the image of a truthy matrix entry of b. */
  predicate Covers(b: Block, c: Cell) {
    exists col, row :: 0 <= row < |b.shape| && 0 <= col < |b.shape[row]| && b.shape[row][col] != 0
                       && c == Place(b, (col, row))
  }

  /** Distinct matrix positions land on distinct board cells. */
  lemma PlaceInjective(b: Block, p: Cell, q: Cell)
    requires p != q
    ensures Place(b, p) != Place(b, q)
  {
    var t := Transform(b.rotation, |b.shape|, p.0, p.1);
    var u := Transform(b.rotation, |b.shape|, q.0, q.1);
    TransformBijective(b.rotation, |b.shape|, p.0, p.1, u.0, u.1);
  }

  /** A list holding the image of each entry, in order, holds exactly the
      covered cells. */
  lemma ImageExact(b: Block, r: seq<Cell>, c: Cell)
    requires |r| == |Entries(b.shape)|
    requires forall i :: 0 <= i < |r| ==> r[i] == Place(b, Entries(b.shape)[i])
    ensures c in r <==> Covers(b, c)
  {
    var e := Entries(b.shape);
    if c in r {
      var i :| 0 <= i < |r| && r[i] == c;
      EntriesExact(b.shape, e[i]);
      var col, row := e[i].0, e[i].1;
      assert c == Place(b, (col, row));
    }
    if Covers(b, c) {
      var col, row :| 0 <= row < |b.shape| && 0 <= col < |b.shape[row]| && b.shape[row][col] != 0
                      && c == Place(b, (col, row));
      EntriesExact(b.shape, (col, row));
      var i :| 0 <= i < |e| && e[i] == (col, row);
      assert r[i] == c;
    }
  }

  /** A list holding the image of each entry, in order, has no duplicates. */
  lemma ImageDistinct(b: Block, r: seq<Cell>)
    requires |r| == |Entries(b.shape)|
    requires forall i :: 0 <= i < |r| ==> r[i] == Place(b, Entries(b.shape)[i])
    ensures forall i, j :: 0 <= i < j < |r| ==> r[i] != r[j]
  {
    var e := Entries(b.shape);
    EntriesDistinct(b.shape);
    forall i, j | 0 <= i < j < |r|
      ensures r[i] != r[j]
    {
      PlaceInjective(b, e[i], e[j]);
    }
  }

  /** The occupied board cells, in enumeration order: one per truthy entry,
      the origin plus that entry's transformed offset. A cell is occupied
      exactly when it is the image of a truthy entry, and no cell is listed
      twice. */
  function Cells(b: Block): (r: seq<Cell>)
    ensures |r| == |Entries(b.shape)|
    ensures forall i :: 0 <= i < |r| ==> r[i] == Place(b, Entries(b.shape)[i])
    ensures forall c :: c in r <==> Covers(b, c)
    ensures forall i, j :: 0 <= i < j < |r| ==> r[i] != r[j]
  {
    var e := Entries(b.shape);
    var r := seq(|e|, i requires 0 <= i < |e| => Place(b, e[i]));
    forall c ensures c in r <==> Covers(b, c) {
      ImageExact(b, r, c);
    }
    ImageDistinct(b, r);
    r
  }

  /** At rotation 0 the occupied cells are the origin plus (column, row) of each truthy entry. */
  lemma CellsAtRotationZero(b: Block, i: int)
    requires b.rotation == 0 && 0 <= i < |Cells(b)|
    ensures Cells(b)[i] == (b.x + Entries(b.shape)[i].0, b.y + Entries(b.shape)[i].1)
  {
  }

  /** The straight piece [[1,1,1,1]] has one row, so its transform size is 1:
      at rotation 2 it occupies the four cells to the LEFT of and including the origin. */
  lemma StraightPieceAtRotationTwo(x: int, y: int)
    ensures Cells(Block(x, y, [[1, 1, 1, 1]], 1, "normal", 2)) == [(x, y), (x - 1, y), (x - 2, y), (x - 3, y)]
  {
    StraightEntries();
    var b := Block(x, y, [[1, 1, 1, 1]], 1, "normal", 2);
    var c := Cells(b);
    var e := Entries(b.shape);
    assert |c| == 4;
    assert c[0] == Place(b, e[0]) == (x, y);
    assert c[1] == Place(b, e[1]) == (x - 1, y);
    assert c[2] == Place(b, e[2]) == (x - 2, y);
    assert c[3] == Place(b, e[3]) == (x - 3, y);
    assert c == [(x, y), (x - 1, y), (x - 2, y), (x - 3, y)];
  }

  lemma StraightEntries()
    ensures Entries([[1, 1, 1, 1]]) == [(0, 0), (1, 0), (2, 0), (3, 0)]
  {
    var row := [1, 1, 1, 1];
    assert RowEntries(row, 0, 4) == [];
    assert RowEntries(row, 0, 3) == [(3, 0)];
    assert RowEntries(row, 0, 2) == [(2, 0), (3, 0)];
    assert RowEntries(row, 0, 1) == [(1, 0), (2, 0), (3, 0)];
    assert RowEntries(row, 0, 0) == [(0, 0), (1, 0), (2, 0), (3, 0)];
    assert EntriesFrom([row], 1) == [];
  }

  // ---------------------------------------------------------------------
  // Mutators

  /** Translate the origin by (dx, dy). */
  function Move(b: Block, dx: int, dy: int): (r: Block)
    ensures r.x == b.x + dx && r.y == b.y + dy
    ensures r.shape == b.shape && r.color == b.color && r.kind == b.kind && r.rotation == b.rotation
  {
    b.(x := b.x + dx, y := b.y + dy)
  }

  /** Every occupied cell shifts by exactly (dx, dy). */
  lemma MoveShiftsCells(b: Block, dx: int, dy: int)
    ensures |Cells(Move(b, dx, dy))| == |Cells(b)|
    ensures forall i :: 0 <= i < |Cells(b)| ==>
              Cells(Move(b, dx, dy))[i] == (Cells(b)[i].0 + dx, Cells(b)[i].1 + dy)
  {
  }

  /** Moving back by the opposite offset restores the piece. */
  lemma MoveInverse(b: Block, dx: int, dy: int)
    ensures Move(Move(b, dx, dy), -dx, -dy) == b
  {
  }

  /** Advance (clockwise) or retreat the rotation state modulo 4. */
  function Rotate(b: Block, clockwise: bool): (r: Block)
    ensures r.x == b.x && r.y == b.y && r.shape == b.shape && r.color == b.color && r.kind == b.kind
    ensures clockwise ==> r.rotation == (if b.rotation == 3 then 0 else b.rotation + 1)
    ensures !clockwise ==> r.rotation == (if b.rotation == 0 then 3 else b.rotation - 1)
  {
    if clockwise then b.(rotation := (b.rotation + 1) % 4)
    else b.(rotation := (b.rotation - 1) % 4)
  }

  /** Four clockwise rotations restore the piece. */
  lemma FourRotationsRestore(b: Block)
    ensures Rotate(Rotate(Rotate(Rotate(b, true), true), true), true) == b
  {
  }

  /** Clockwise then counter-clockwise (and the reverse) is the identity. */
  lemma RotateInverse(b: Block)
    ensures Rotate(Rotate(b, true), false) == b
    ensures Rotate(Rotate(b, false), true) == b
  {
  }

  // ---------------------------------------------------------------------
  // Cell values

  /** The type tags that have a special board code. */
  const SpecialKinds: set<string> := {"exploding", "rainbow", "freezing"}

  /** The board code written for this piece's cells. */
  function CellValue(b: Block): (v: int)
    ensures b.kind == "normal" ==> v == b.color
    ensures b.kind == "exploding" ==> v == -1
    ensures b.kind == "rainbow" ==> v == -2
    ensures b.kind == "freezing" ==> v == -3
    ensures b.kind != "normal" ==> v < 0
    ensures b.kind != "normal" ==> (v == -99 <==> b.kind !in SpecialKinds)
    ensures b.kind in SpecialKinds ==> -3 <= v <= -1
  {
    if b.kind == "normal" then b.color
    else if b.kind == "exploding" then -1
    else if b.kind == "rainbow" then -2
    else if b.kind == "freezing" then -3
    else -99
  }

  /** Distinct special kinds get distinct codes, so the code identifies the kind. */
  lemma SpecialCodesDistinct(b: Block, c: Block)
    requires b.kind in SpecialKinds && c.kind in SpecialKinds
    ensures CellValue(b) == CellValue(c) <==> b.kind == c.kind
  {
  }

  /** `is_special`: the type tag is not "normal". For a piece with a
      non-negative colour this is exactly writing a negative board code. */
  function IsSpecial(b: Block): (r: bool)
    ensures b.color >= 0 ==> (r <==> CellValue(b) < 0)
  {
    b.kind != "normal"
  }
}
