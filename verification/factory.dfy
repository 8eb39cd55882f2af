/**
  The piece factory: fixed shape, colour and special-type tables and the
  per-mode choice between a classic and a special piece. Every random
  outcome the factory would draw is an explicit field of a `Draw`.
 */
module Factory {
  import opened Blocks

  /** The keys of the canonical shape table, in table order. */
  datatype ShapeKey = I | J | L | O | S | T | Z

  /** The keys of the extra shapes only special pieces may use. */
  datatype SpecialShapeKey = Plus | U | Cross

  /** The three special piece types, in table order. */
  datatype SpecialType = Exploding | Rainbow | Freezing

  /** The spawn position of every new piece. */
  const StartX := 4
  const StartY := 0

  /** The canonical shape table. */
  function ClassicShape(k: ShapeKey): seq<seq<int>> {
    match k
    case I => [[1, 1, 1, 1]]
    case J => [[1, 0, 0], [1, 1, 1]]
    case L => [[0, 0, 1], [1, 1, 1]]
    case O => [[1, 1], [1, 1]]
    case S => [[0, 1, 1], [1, 1, 0]]
    case T => [[0, 1, 0], [1, 1, 1]]
    case Z => [[1, 1, 0], [0, 1, 1]]
  }

  /** The colour table for canonical shapes. */
  function ClassicColor(k: ShapeKey): int {
    match k
    case I => 1
    case J => 2
    case L => 3
    case O => 4
    case S => 5
    case T => 6
    case Z => 7
  }

  /** The extra shape table. */
  function SpecialShape(k: SpecialShapeKey): seq<seq<int>> {
    match k
    case Plus => [[0, 1, 0], [1, 1, 1], [0, 1, 0]]
    case U => [[1, 0, 1], [1, 1, 1]]
    case Cross => [[0, 1, 0, 0], [1, 1, 1, 1], [0, 1, 0, 0]]
  }

  /** The type tag of a special type. */
  function TypeName(t: SpecialType): (s: string)
    ensures s in SpecialKinds
  {
    match t
    case Exploding => "exploding"
    case Rainbow => "rainbow"
    case Freezing => "freezing"
  }

  /** The outcomes of the random calls one `create_block` may make:
      `specialRoll` is the mode's threshold test, `shapeRoll` the special
      piece's 50% shape-table test, `classic` and `special` the shape picks,
      `color` the special colour and `kind` the special type. */
  datatype Draw = Draw(specialRoll: real, shapeRoll: real, classic: ShapeKey,
                       special: SpecialShapeKey, color: int, kind: SpecialType)

  /** The ranges the random calls return: `random()` in [0, 1), `randint(8, 10)` in 8..10. */
  predicate ValidDraw(d: Draw) {
    0.0 <= d.specialRoll < 1.0 && 0.0 <= d.shapeRoll < 1.0 && 8 <= d.color <= 10
  }

  /** A classic piece: type "normal", a canonical shape and that shape's colour. */
  predicate IsClassicPiece(b: Block) {
    b.kind == "normal" && exists k :: b.shape == ClassicShape(k) && b.color == ClassicColor(k)
  }

  /** A special piece: a special type, a colour in 8..10 and a shape from either table. */
  predicate IsSpecialPiece(b: Block) {
    b.kind in SpecialKinds && 8 <= b.color <= 10 &&
    ((exists k :: b.shape == ClassicShape(k)) || (exists k :: b.shape == SpecialShape(k)))
  }

  /** `_create_classic_block`. */
  function CreateClassicBlock(x: int, y: int, d: Draw): (b: Block)
    ensures b.x == x && b.y == y && b.rotation == 0
    ensures IsClassicPiece(b) && 1 <= b.color <= 7
  {
    NewBlock(x, y, ClassicShape(d.classic), ClassicColor(d.classic), "normal")
  }

  /** `_create_special_block`. */
  function CreateSpecialBlock(x: int, y: int, d: Draw): (b: Block)
    requires ValidDraw(d)
    ensures b.x == x && b.y == y && b.rotation == 0
    ensures IsSpecialPiece(b) && IsSpecial(b)
    ensures d.shapeRoll < 0.5 ==> b.shape == ClassicShape(d.classic)
    ensures d.shapeRoll >= 0.5 ==> b.shape == SpecialShape(d.special)
  {
    var shape := if d.shapeRoll < 0.5 then ClassicShape(d.classic) else SpecialShape(d.special);
    NewBlock(x, y, shape, d.color, TypeName(d.kind))
  }

  /** `create_block`: classic mode and unknown modes give a classic piece;
      challenge and timed modes give a special piece when the threshold test
      passes (below 0.1 and 0.2 respectively) and a classic piece otherwise. */
  function CreateBlock(mode: string, d: Draw): (b: Block)
    requires ValidDraw(d)
    ensures b.x == StartX && b.y == StartY && b.rotation == 0
    ensures mode != "challenge" && mode != "timed" ==> IsClassicPiece(b)
    ensures mode == "challenge" ==> (if d.specialRoll < 0.1 then IsSpecialPiece(b) else IsClassicPiece(b))
    ensures mode == "timed" ==> (if d.specialRoll < 0.2 then IsSpecialPiece(b) else IsClassicPiece(b))
    ensures IsClassicPiece(b) || IsSpecialPiece(b)
  {
    if mode == "classic" then CreateClassicBlock(StartX, StartY, d)
    else if mode == "challenge" then
      (if d.specialRoll < 0.1 then CreateSpecialBlock(StartX, StartY, d) else CreateClassicBlock(StartX, StartY, d))
    else if mode == "timed" then
      (if d.specialRoll < 0.2 then CreateSpecialBlock(StartX, StartY, d) else CreateClassicBlock(StartX, StartY, d))
    else CreateClassicBlock(StartX, StartY, d)
  }

  /** Every canonical shape is a rectangular 0/1 matrix. */
  lemma ClassicShapesWellFormed(k: ShapeKey)
    ensures var shape := ClassicShape(k);
            && |shape| > 0 && (forall i :: 0 <= i < |shape| ==> |shape[i]| == |shape[0]|)
            && (forall i, j :: 0 <= i < |shape| && 0 <= j < |shape[i]| ==> shape[i][j] == 0 || shape[i][j] == 1)
  {
  }

  /** The truthy entries of each canonical shape, counted on the literal table. */
  lemma ClassicTruthy(k: ShapeKey)
    ensures TruthyFrom(ClassicShape(k), 0) == 4
  {
    match k
    case I => assert TruthyFrom([[1, 1, 1, 1]], 0) == 4;
    case J => assert TruthyFrom([[1, 0, 0], [1, 1, 1]], 0) == 4;
    case L => assert TruthyFrom([[0, 0, 1], [1, 1, 1]], 0) == 4;
    case O => assert TruthyFrom([[1, 1], [1, 1]], 0) == 4;
    case S => assert TruthyFrom([[0, 1, 1], [1, 1, 0]], 0) == 4;
    case T => assert TruthyFrom([[0, 1, 0], [1, 1, 1]], 0) == 4;
    case Z => assert TruthyFrom([[1, 1, 0], [0, 1, 1]], 0) == 4;
  }

  /** Every canonical shape has exactly four truthy entries. */
  lemma {:induction false} ClassicShapesAreTetrominoes(k: ShapeKey)
    ensures |Entries(ClassicShape(k))| == 4
  {
    EntriesCount(ClassicShape(k), 0);
    ClassicTruthy(k);
  }

  /** Every canonical shape has its own colour, in 1..7. */
  lemma ClassicColorsDistinct(k: ShapeKey, l: ShapeKey)
    ensures 1 <= ClassicColor(k) <= 7
    ensures ClassicColor(k) == ClassicColor(l) <==> k == l
  {
  }

  /** Every extra shape is a rectangular 0/1 matrix. */
  lemma SpecialShapesWellFormed(k: SpecialShapeKey)
    ensures var shape := SpecialShape(k);
            && |shape| > 0 && (forall i :: 0 <= i < |shape| ==> |shape[i]| == |shape[0]|)
            && (forall i, j :: 0 <= i < |shape| && 0 <= j < |shape[i]| ==> shape[i][j] == 0 || shape[i][j] == 1)
  {
  }

  /** The truthy entries of each extra shape, counted on the literal table. */
  lemma SpecialTruthy(k: SpecialShapeKey)
    ensures TruthyFrom(SpecialShape(k), 0) >= 5
  {
    match k
    case Plus => assert TruthyFrom([[0, 1, 0], [1, 1, 1], [0, 1, 0]], 0) == 5;
    case U => assert TruthyFrom([[1, 0, 1], [1, 1, 1]], 0) == 5;
    case Cross => assert TruthyFrom([[0, 1, 0, 0], [1, 1, 1, 1], [0, 1, 0, 0]], 0) == 6;
  }

  /** Every extra shape has at least five truthy entries, so none is a tetromino. */
  lemma {:induction false} SpecialShapesAreLarger(k: SpecialShapeKey)
    ensures |Entries(SpecialShape(k))| >= 5
  {
    EntriesCount(SpecialShape(k), 0);
    SpecialTruthy(k);
  }

  /** A classic piece is not special, and a special piece is. */
  lemma ClassicAndSpecialDisjoint(b: Block)
    ensures IsClassicPiece(b) ==> !IsSpecial(b) && !IsSpecialPiece(b)
    ensures IsSpecialPiece(b) ==> IsSpecial(b) && b.kind != "normal"
  {
  }

  /** Every table shape has a truthy entry in its last row, second column. */
  lemma {:induction false} TableShapesHaveCell(b: Block)
    requires IsClassicPiece(b) || IsSpecialPiece(b)
    ensures |b.shape| > 0 && |b.shape[|b.shape| - 1]| > 1 && b.shape[|b.shape| - 1][1] != 0
  {
    if exists k :: b.shape == ClassicShape(k) {
      var k :| b.shape == ClassicShape(k);
      match k
      case I =>
      case J =>
      case L =>
      case O =>
      case S =>
      case T =>
      case Z =>
    } else {
      var k :| b.shape == SpecialShape(k);
      match k
      case Plus =>
      case U =>
      case Cross =>
    }
  }

  /** Every piece the factory creates occupies at least one cell. */
  lemma CreatedBlockHasCells(mode: string, d: Draw)
    requires ValidDraw(d)
    ensures |Cells(CreateBlock(mode, d))| > 0
  {
    var b := CreateBlock(mode, d);
    TableShapesHaveCell(b);
    EntriesExact(b.shape, (1, |b.shape| - 1));
  }
}
