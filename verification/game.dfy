/**
  The game session: the current and next pieces over one board, movement
  with placement on a blocked downward move, rotation with a wall-kick
  search, scoring with combos and levels, the ghost piece, and the per-tick
  step driven by the held keys and the tick's millisecond timestamp.
  Random piece choices arrive as `Draw`s, the date string for a saved
  record as an input; sound cues are not modelled.
 */
module Game {
  import opened Blocks
  import opened Boards
  import opened Physics
  import opened Factory
  import opened Statistics

  datatype Option<T> = None | Some(value: T)

  /** The held state of the keys the game reads. */
  datatype Keys = Keys(up: bool, down: bool, left: bool, right: bool, space: bool, p: bool, r: bool)

  /** What a tick reports to the screen router. */
  datatype Status = Playing | ReturnToMenu | GameOver

  const BoardWidth: nat := 10
  const BoardHeight: nat := 20
  const InitialFallSpeed := 1000
  const HardDropSpeed := 10
  const SoftDropFactor := 3
  const ReturnConfirmDuration := 3000
  const GameOverDuration := 2000
  const ComboDisplayDuration := 2000

  /** The falling piece, the preview piece and the ghost (the falling piece
      dropped to rest). `shared` records that the falling and the preview
      piece are one object, as they are after a spawned piece did not fit:
      moving or rotating the falling piece then moves the preview too. */
  datatype Pieces = Pieces(current: Option<Block>, next: Option<Block>, ghostPiece: Option<Block>, shared: bool)

  /** The pieces once the falling piece takes pose `b`; the preview follows
      when the two are one object. */
  function WithCurrent(p: Pieces, b: Block): Pieces {
    p.(current := Some(b), next := if p.shared then Some(b) else p.next)
  }

  /** Score, level and fall interval, the combo counter and its display, the
      rows cleared by the last placement and the mode's best score. */
  datatype Progress = Progress(score: int, level: int, fallSpeed: int, combo: int, comboTimer: int,
                               comboShow: bool, lastLinesCleared: int, highest: int)

  /** Whether the game is over, and whether and since when the final score shows. */
  datatype Ending = Ending(gameOver: bool, display: bool, displayTime: int)

  /** The key-handling state: the keys held at the previous tick, the fall
      clock, the hard- and soft-drop sub-modes, pause and the return
      confirmation. */
  datatype Controls = Controls(lastKeys: Keys, lastFallTime: int, hardDropping: bool, lastHardDropTime: int,
                               softDropping: bool, paused: bool, returnConfirm: bool, returnConfirmTime: int)

  datatype Session = Session(board: Board, pieces: Pieces, progress: Progress, ending: Ending,
                             controls: Controls, mode: string, stats: Stats)

  /** A piece with at least one occupied cell. */
  predicate HasCells(b: Block) {
    |Entries(b.shape)| > 0
  }

  /** A session a tick can run on: a well-formed board and current and next
      pieces that occupy cells, equal while they are one object. */
  predicate Ready(s: Session) {
    && Valid(s.board) && s.pieces.current.Some? && s.pieces.next.Some?
    && HasCells(s.pieces.current.value) && HasCells(s.pieces.next.value)
    && (s.pieces.shared ==> s.pieces.next == s.pieces.current)
  }

  /** The fall interval for a level: 100 ms less per level, never below 100 ms. */
  function FallSpeedFor(level: int): (ms: int)
    ensures ms >= 100
    ensures level <= 10 ==> ms == 1000 - (level - 1) * 100
    ensures level >= 10 ==> ms == 100
  {
    var v := 1000 - (level - 1) * 100;
    if v > 100 then v else 100
  }

  /** The counters a session keeps consistent: level at least 1, score and
      combo non-negative, and the fall interval derived from the level. */
  predicate Consistent(p: Progress) {
    p.level >= 1 && p.score >= 0 && p.combo >= 0 && p.fallSpeed == FallSpeedFor(p.level)
  }

  /** A game that is over shows its final score. */
  predicate Coherent(e: Ending) {
    e.gameOver ==> e.display
  }

  /** The game as created, before any mode is chosen: no pieces yet. */
  function NewSession(stats: Stats): (s: Session)
    ensures Consistent(s.progress) && Coherent(s.ending)
    ensures Valid(s.board) && s.board.width == BoardWidth && s.board.height == BoardHeight
    ensures forall y, x :: 0 <= y < s.board.height && 0 <= x < s.board.width ==> s.board.grid[y][x] == 0
    ensures s.pieces.current.None? && s.pieces.next.None? && !s.ending.gameOver && !s.controls.paused
    ensures s.progress.score == 0 && s.progress.level == 1 && s.progress.fallSpeed == InitialFallSpeed
    ensures s.progress.combo == 0 && !s.progress.comboShow && s.progress.highest == 0
    ensures !s.ending.display && !s.controls.hardDropping && !s.controls.returnConfirm
    ensures s.mode == "classic" && s.stats == stats
  {
    Session(NewBoard(BoardWidth, BoardHeight), Pieces(None, None, None, false),
            Progress(0, 1, InitialFallSpeed, 0, 0, false, 0, 0), Ending(false, false, 0),
            Controls(Keys(false, false, false, false, false, false, false), 0, false, 0, false, false, false, 0),
            "classic", stats)
  }

  // ---------------------------------------------------------------------
  // Mode (re)start

  /** `set_mode` as the source writes it: every per-game field is reset
      except the fall interval, which keeps the previous game's value. */
  function SetModeAsWritten(s: Session, mode: string, d1: Draw, d2: Draw): (r: Session)
    requires Valid(s.board) && ValidDraw(d1) && ValidDraw(d2)
    ensures Ready(r) && r.progress.level == 1 && r.progress.fallSpeed == s.progress.fallSpeed
  {
    CreatedBlockHasCells(mode, d1);
    CreatedBlockHasCells(mode, d2);
    s.(mode := mode, board := Clear(s.board),
       pieces := Pieces(Some(CreateBlock(mode, d1)), Some(CreateBlock(mode, d2)), None, false),
       progress := s.progress.(score := 0, level := 1, combo := 0, comboShow := false,
                               highest := HighestScore(s.stats.history, mode)),
       ending := s.ending.(gameOver := false, display := false),
       controls := s.controls.(hardDropping := false, paused := false, returnConfirm := false))
  }

  /** A session whose previous game reached level 5 restarts at level 1 with
      level 5's fall interval: the restarted session is not consistent. */
  lemma SetModeAsWrittenKeepsStaleSpeed(s: Session, mode: string, d1: Draw, d2: Draw)
    requires Valid(s.board) && ValidDraw(d1) && ValidDraw(d2)
    requires Consistent(s.progress) && s.progress.level == 5
    ensures SetModeAsWritten(s, mode, d1, d2).progress.fallSpeed == 600
    ensures !Consistent(SetModeAsWritten(s, mode, d1, d2).progress)
  {
  }

  /** `set_mode` with the fall interval reset to level 1's: a fresh game on a
      cleared board with two newly created pieces, the mode's best score and
      every per-game flag and counter reset. */
  function SetMode(s: Session, mode: string, d1: Draw, d2: Draw): (r: Session)
    requires Valid(s.board) && ValidDraw(d1) && ValidDraw(d2)
    ensures Ready(r) && Consistent(r.progress) && Coherent(r.ending)
    ensures r.mode == mode && r.progress.score == 0 && r.progress.level == 1 && r.progress.combo == 0
    ensures !r.ending.gameOver && !r.ending.display && !r.controls.paused && !r.controls.hardDropping
    ensures r.board.width == s.board.width && r.board.height == s.board.height
    ensures forall y, x :: 0 <= y < r.board.height && 0 <= x < r.board.width ==> r.board.grid[y][x] == 0
    ensures r.pieces == Pieces(Some(CreateBlock(mode, d1)), Some(CreateBlock(mode, d2)), None, false)
    ensures r.progress.highest == HighestScore(s.stats.history, mode)
  {
    var w := SetModeAsWritten(s, mode, d1, d2);
    w.(progress := w.progress.(fallSpeed := FallSpeedFor(1)))
  }

  // ---------------------------------------------------------------------
  // Scoring and placement

  /** The extra points per level for clearing several lines at once. */
  function MultiLineBonus(lines: int): int {
    if lines >= 4 then 800 else if lines >= 3 then 300 else if lines >= 2 then 100 else 0
  }

  /** The points for one clearing placement at `level`, `combo` being the
      already incremented combo counter: 100 per line, 50 per combo step from
      the second consecutive clear on, and the multi-line bonus, all scaled
      by the level. */
  function ScoreDelta(lines: int, combo: int, level: int): (delta: int)
    ensures delta == (lines * 100 + (if combo > 1 then combo * 50 else 0) + MultiLineBonus(lines)) * level
    ensures lines > 0 && combo >= 0 && level > 0 ==> delta >= 100
  {
    var base := lines * 100 * level;
    var comboBonus := if combo > 1 then combo * 50 * level else 0;
    var lineBonus := if lines >= 4 then 800 * level
                     else if lines >= 3 then 300 * level
                     else if lines >= 2 then 100 * level
                     else 0;
    base + comboBonus + lineBonus
  }

  /** The two worked scoring cases: a first four-line clear at level 1 and a
      third consecutive single-line clear at level 2. */
  lemma ScoringExamples()
    ensures ScoreDelta(4, 1, 1) == 1200
    ensures ScoreDelta(1, 3, 2) == 500
  {
  }

  /** The scoring step of `_place_block` for `lines` cleared rows. A clear
      bumps the combo, shows it from `now`, adds the points and gains at most
      one level, when the thousands of the score exceed the levels already
      gained, with the fall interval following the level. No clear resets
      the combo and leaves score and level. The best score is not touched. */
  function ScoreLines(p: Progress, lines: nat, now: int): (r: Progress)
    ensures r.lastLinesCleared == lines && r.highest == p.highest
    ensures Consistent(p) ==> Consistent(r)
    ensures lines == 0 ==> r == p.(combo := 0, comboShow := false, lastLinesCleared := 0)
    ensures lines > 0 ==> && r.combo == p.combo + 1 && r.comboShow && r.comboTimer == now
                          && r.score == p.score + ScoreDelta(lines, p.combo + 1, p.level)
                          && r.level == (if r.score / 1000 > p.level - 1 then p.level + 1 else p.level)
                          && (r.level == p.level ==> r.fallSpeed == p.fallSpeed)
                          && (r.level != p.level ==> r.fallSpeed == FallSpeedFor(r.level))
  {
    if lines == 0 then p.(combo := 0, comboShow := false, lastLinesCleared := 0)
    else
      var combo := p.combo + 1;
      var delta := ScoreDelta(lines, combo, p.level);
      var scored := p.(combo := combo, comboShow := true, comboTimer := now,
                       score := p.score + delta, lastLinesCleared := lines);
      if scored.score / 1000 > scored.level - 1 then
        scored.(level := scored.level + 1, fallSpeed := FallSpeedFor(scored.level + 1))
      else scored
  }

  /** What `_place_block` does to a session, `d` being the draw for a new
      next piece: the current piece is written into the board and full rows
      are cleared; the clear is scored and the piece counted; the next piece
      becomes current. If that piece does not fit, the game ends with its
      final score showing from `now`, the record is saved and current and
      next stay one piece; otherwise a new next piece is created and the best
      score is raised to the score. The mode is not touched. */
  predicate Placed(s: Session, r: Session, d: Draw, now: int, date: string)
    requires Ready(s) && ValidDraw(d)
  {
    var cleared := ClearLines(PlaceBlock(s.board, s.pieces.current.value));
    var scored := ScoreLines(s.progress, cleared.1, now);
    var counted := Update(s.stats, cleared.1, s.pieces.current.value.kind);
    && r.board == cleared.0 && r.mode == s.mode && r.pieces.current == s.pieces.next
    && r.progress == scored.(highest := r.progress.highest)
    && if IsValidPosition(s.pieces.next.value, cleared.0) then
         && r.pieces.next == Some(CreateBlock(s.mode, d)) && !r.pieces.shared
         && r.ending == s.ending && r.stats == counted
         && r.progress.highest == (if scored.score > s.progress.highest then scored.score else s.progress.highest)
       else
         && r.pieces.next == s.pieces.next && r.pieces.shared
         && r.ending == Ending(true, true, now) && r.progress.highest == s.progress.highest
         && r.stats == SaveGameData(counted, scored.score, scored.level, s.mode, date).0
  }

  /** The first half of `_place_block`: commit the piece to the board, clear
      full rows, score them and count the piece. The pieces are not touched yet. */
  method CommitPiece(s: Session, now: int) returns (r: Session)
    requires Ready(s)
    ensures Valid(r.board) && r == s.(board := r.board, progress := r.progress, stats := r.stats)
    ensures var cleared := ClearLines(PlaceBlock(s.board, s.pieces.current.value));
            && r.board == cleared.0 && r.progress == ScoreLines(s.progress, cleared.1, now)
            && r.stats == Update(s.stats, cleared.1, s.pieces.current.value.kind)
  {
    var cur := s.pieces.current.value;
    var cleared := ClearLines(PlaceBlock(s.board, cur));
    r := s.(board := cleared.0, progress := ScoreLines(s.progress, cleared.1, now),
            stats := Update(s.stats, cleared.1, cur.kind));
  }

  /** The second half of `_place_block`: the next piece becomes current; if
      it does not fit, the game ends, its final score shows from `now`, the
      record is saved and current and next remain one piece; otherwise a new
      next piece is created and the best score follows the score. */
  method SpawnNext(s: Session, d: Draw, now: int, date: string) returns (r: Session)
    requires Valid(s.board) && s.pieces.next.Some? && HasCells(s.pieces.next.value) && ValidDraw(d)
    ensures Ready(r) && r.pieces.current == s.pieces.next && r.pieces.ghostPiece == s.pieces.ghostPiece
    ensures r == s.(pieces := r.pieces, progress := r.progress, ending := r.ending, stats := r.stats)
    ensures r.progress == s.progress.(highest := r.progress.highest)
    ensures !IsValidPosition(s.pieces.next.value, s.board) ==>
              && r.ending == Ending(true, true, now) && r.pieces.next == s.pieces.next && r.pieces.shared
              && r.progress == s.progress
              && r.stats == SaveGameData(s.stats, s.progress.score, s.progress.level, s.mode, date).0
    ensures IsValidPosition(s.pieces.next.value, s.board) ==>
              && r.ending == s.ending && r.pieces.next == Some(CreateBlock(s.mode, d)) && !r.pieces.shared
              && r.progress.highest == (if s.progress.score > s.progress.highest then s.progress.score
                                        else s.progress.highest)
              && r.stats == s.stats
  {
    var next := s.pieces.next.value;
    if !IsValidPosition(next, s.board) {
      var saved := SaveGameData(s.stats, s.progress.score, s.progress.level, s.mode, date);
      r := s.(pieces := s.pieces.(current := s.pieces.next, shared := true),
              ending := Ending(true, true, now), stats := saved.0);
    } else {
      CreatedBlockHasCells(s.mode, d);
      var best := if s.progress.score > s.progress.highest then s.progress.score else s.progress.highest;
      r := s.(pieces := s.pieces.(current := s.pieces.next, next := Some(CreateBlock(s.mode, d)), shared := false),
              progress := s.progress.(highest := best));
    }
  }

  /** `_place_block`: commit the piece, score the clear and count the piece,
      then bring in the next piece, as `Placed` states. The controls and the
      ghost are not touched, and the counters stay consistent. */
  method PlacePiece(s: Session, d: Draw, now: int, date: string) returns (r: Session)
    requires Ready(s) && ValidDraw(d)
    ensures Ready(r) && Placed(s, r, d, now, date) && Kept(s, r)
    ensures r.controls == s.controls && r.pieces.ghostPiece == s.pieces.ghostPiece
  {
    var committed := CommitPiece(s, now);
    r := SpawnNext(committed, d, now, date);
  }

  // ---------------------------------------------------------------------
  // Ghost piece

  /** The ghost's resting pose: the piece moved down while it can move down. */
  function DropGhost(b: Block, board: Board): (g: Block)
    requires Valid(board) && HasCells(b)
    decreases board.height - Cells(b)[0].1
    ensures g == b.(y := g.y) && g.y >= b.y
    ensures !CanMove(g, board, 0, 1).0
  {
    if CanMove(b, board, 0, 1).0 then
      CanMoveExact(b, board, 0, 1);
      assert Free(board, (Cells(b)[0].0, Cells(b)[0].1 + 1));
      MoveShiftsCells(b, 0, 1);
      DropGhost(Move(b, 0, 1), board)
    else b
  }

  /** The ghost stops at the first row where the piece cannot move down:
      from every row between the piece and the ghost it can. */
  lemma {:induction false} DropGhostFirstRest(b: Block, board: Board, k: int)
    requires Valid(board) && HasCells(b)
    requires b.y <= k < DropGhost(b, board).y
    decreases board.height - Cells(b)[0].1
    ensures CanMove(b.(y := k), board, 0, 1).0
  {
    if k == b.y {
      assert b.(y := k) == b;
    } else {
      CanMoveExact(b, board, 0, 1);
      assert Free(board, (Cells(b)[0].0, Cells(b)[0].1 + 1));
      MoveShiftsCells(b, 0, 1);
      var down := Move(b, 0, 1);
      DropGhostFirstRest(down, board, k);
      assert down.(y := k) == b.(y := k);
    }
  }

  /** Dropping the ghost again leaves it where it is. */
  lemma DropGhostIdempotent(b: Block, board: Board)
    requires Valid(board) && HasCells(b)
    ensures DropGhost(DropGhost(b, board), board) == DropGhost(b, board)
  {
  }

  /** The ghost of a piece in a valid pose is in a valid pose too, and rests
      in the physics engine's sense: on the floor or on a filled cell. */
  lemma {:induction false} GhostRests(b: Block, board: Board)
    requires Valid(board) && HasCells(b) && IsValidPosition(b, board)
    decreases board.height - Cells(b)[0].1
    ensures IsValidPosition(DropGhost(b, board), board)
    ensures HandleCollisions(DropGhost(b, board), board)
  {
    var g := DropGhost(b, board);
    if CanMove(b, board, 0, 1).0 {
      CanMoveExact(b, board, 0, 1);
      assert Free(board, (Cells(b)[0].0, Cells(b)[0].1 + 1));
      MoveShiftsCells(b, 0, 1);
      GhostRests(Move(b, 0, 1), board);
    } else {
      RestingIffBlockedBelow(g, board);
    }
  }

  /** The ghost is the current piece dropped to rest on the current board. */
  predicate GhostFollows(s: Session)
    requires Ready(s)
  {
    s.pieces.ghostPiece == Some(DropGhost(s.pieces.current.value, s.board))
  }

  /** `_update_ghost_block`: the ghost becomes a copy of the current piece
      dropped to rest, in the same column and rotation state, no higher, and
      unable to move down; nothing else changes. */
  function UpdateGhost(s: Session): (r: Session)
    requires Ready(s)
    ensures Ready(r) && GhostFollows(r)
    ensures r == s.(pieces := s.pieces.(ghostPiece := r.pieces.ghostPiece))
    ensures var g := r.pieces.ghostPiece.value; var cur := s.pieces.current.value;
            && g.x == cur.x && g.rotation == cur.rotation && g.shape == cur.shape && g.y >= cur.y
            && !CanMove(g, s.board, 0, 1).0
  {
    var copy := Copy(s.pieces.current.value);
    assert copy == s.pieces.current.value;
    s.(pieces := s.pieces.(ghostPiece := Some(DropGhost(copy, s.board))))
  }

  // ---------------------------------------------------------------------
  // Movement and rotation

  /** `_move_block`: move when `can_move` allows (the preview moving along
      while it is the same piece); a blocked downward move places the piece;
      any other blocked move leaves the piece. The ghost is recomputed either
      way. Returns whether the piece moved. */
  method MoveBlock(s: Session, dx: int, dy: int, d: Draw, now: int, date: string) returns (r: Session, moved: bool)
    requires Ready(s) && ValidDraw(d)
    ensures Ready(r) && GhostFollows(r) && Kept(s, r) && r.controls == s.controls && r.mode == s.mode
    ensures moved <==> IsValidPosition(Move(s.pieces.current.value, dx, dy), s.board)
    ensures moved ==> r == s.(pieces := WithCurrent(s.pieces, Move(s.pieces.current.value, dx, dy))
                                          .(ghostPiece := r.pieces.ghostPiece))
    ensures !moved && dy > 0 ==> Placed(s, r, d, now, date)
    ensures !moved && dy <= 0 ==> r == s.(pieces := s.pieces.(ghostPiece := r.pieces.ghostPiece))
  {
    moved := CanMove(s.pieces.current.value, s.board, dx, dy).0;
    if moved {
      r := UpdateGhost(s.(pieces := WithCurrent(s.pieces, Move(s.pieces.current.value, dx, dy))));
    } else if dy > 0 {
      r := PlacePiece(s, d, now, date);
      r := UpdateGhost(r);
    } else {
      r := UpdateGhost(s);
    }
  }

  /** What a one-row downward `_move_block` does to the game: the piece moves
      down when that pose is free and is placed otherwise; the ghost follows
      either way and the counters stay consistent. */
  predicate SteppedDown(s: Session, r: Session, d: Draw, now: int, date: string)
    requires Ready(s) && ValidDraw(d)
  {
    var down := Move(s.pieces.current.value, 0, 1);
    && Ready(r) && GhostFollows(r) && Kept(s, r) && r.mode == s.mode && r.controls == s.controls
    && (IsValidPosition(down, s.board) ==>
          r == s.(pieces := WithCurrent(s.pieces, down).(ghostPiece := r.pieces.ghostPiece)))
    && (!IsValidPosition(down, s.board) ==> Placed(s, r, d, now, date))
  }

  /** `_move_block(0, 1)`: one row down, or the placement; returns whether
      the piece moved. */
  method StepDown(s: Session, d: Draw, now: int, date: string) returns (r: Session, moved: bool)
    requires Ready(s) && ValidDraw(d)
    ensures SteppedDown(s, r, d, now, date)
    ensures moved <==> IsValidPosition(Move(s.pieces.current.value, 0, 1), s.board)
  {
    r, moved := MoveBlock(s, 0, 1, d, now, date);
  }

  /** The wall-kick probes, in the order they are tried. */
  const KickOffsets: seq<(int, int)> := [(-1, 0), (1, 0), (-2, 0), (2, 0), (0, -1), (-1, -1), (1, -1)]

  /** The probe `k` applied to piece b. */
  function Kicked(b: Block, k: int): Block
    requires 0 <= k < |KickOffsets|
  {
    Move(b, KickOffsets[k].0, KickOffsets[k].1)
  }

  /** The probe loop from probe `i` on: shift, test, and undo the shift when
      the pose is invalid. Returns the first valid probe and the piece as left. */
  function KickSearch(b: Block, board: Board, i: nat): (r: (Option<nat>, Block))
    requires Valid(board) && i <= |KickOffsets|
    decreases |KickOffsets| - i
    ensures r.0.Some? ==> i <= r.0.value < |KickOffsets| && r.1 == Kicked(b, r.0.value) &&
                          IsValidPosition(r.1, board) &&
                          forall j :: i <= j < r.0.value ==> !IsValidPosition(Kicked(b, j), board)
    ensures r.0.None? ==> r.1 == b && forall j :: i <= j < |KickOffsets| ==> !IsValidPosition(Kicked(b, j), board)
  {
    if i == |KickOffsets| then (None, b)
    else
      var dx, dy := KickOffsets[i].0, KickOffsets[i].1;
      var probe := Move(b, dx, dy);
      if IsValidPosition(probe, board) then (Some(i), probe)
      else
        MoveInverse(b, dx, dy);
        KickSearch(Move(probe, -dx, -dy), board, i + 1)
  }

  /** Whether some probe makes the rotated piece fit. */
  predicate SomeKickFits(b: Block, board: Board)
    requires Valid(board)
  {
    exists k :: 0 <= k < |KickOffsets| && IsValidPosition(Kicked(b, k), board)
  }

  /** The pose `_rotate_block` leaves, and whether the rotation took: the
      clockwise rotation if it fits, else the first fitting wall-kick probe of
      it, else the original piece. A pose that took is valid and keeps the
      piece's shape. */
  function RotatedPose(cur: Block, board: Board): (r: (Block, bool))
    requires Valid(board)
    ensures r.1 ==> IsValidPosition(r.0, board) && r.0.shape == cur.shape
    ensures !r.1 ==> r.0 == cur
    ensures var rotated := Rotate(cur, true);
      if IsValidPosition(rotated, board) then r == (rotated, true)
      else if SomeKickFits(rotated, board) then
        r.1 &&
        exists k :: 0 <= k < |KickOffsets| && r.0 == Kicked(rotated, k) &&
                    forall j :: 0 <= j < k ==> !IsValidPosition(Kicked(rotated, j), board)
      else !r.1
  {
    var rotated := Rotate(cur, true);
    if IsValidPosition(rotated, board) then (rotated, true)
    else
      var search := KickSearch(rotated, board, 0);
      if search.0.Some? then (search.1, true)
      else
        var restored := search.1.(x := cur.x, rotation := cur.rotation);
        assert restored == cur;
        (restored, false)
  }

  /** If the rotated pose is blocked but the one a column to the left fits,
      the piece ends up rotated and one column to the left. */
  lemma KickLeftFirst(cur: Block, board: Board)
    requires Valid(board)
    requires !IsValidPosition(Rotate(cur, true), board)
    requires IsValidPosition(Move(Rotate(cur, true), -1, 0), board)
    ensures RotatedPose(cur, board) == (Move(Rotate(cur, true), -1, 0), true)
    ensures RotatedPose(cur, board).0.x == cur.x - 1
  {
    assert Kicked(Rotate(cur, true), 0) == Move(Rotate(cur, true), -1, 0);
  }

  /** What `_rotate_block` does to the pieces: when the rotation took, the
      falling piece takes the rotated pose (the preview with it while they are
      one piece) and the ghost follows; otherwise nothing changes. */
  predicate Turned(s: Session, r: Session)
    requires Ready(s)
  {
    var pose := RotatedPose(s.pieces.current.value, s.board);
    if pose.1 then Ready(r) && GhostFollows(r) && r.pieces == WithCurrent(s.pieces, pose.0).(ghostPiece := r.pieces.ghostPiece)
    else r.pieces == s.pieces
  }

  /** `_rotate_block` on a session: the falling piece ends in the pose
      `RotatedPose` gives; only the pieces change. */
  method RotateBlock(s: Session) returns (r: Session)
    requires Ready(s)
    ensures Ready(r) && r == s.(pieces := r.pieces) && Turned(s, r)
    ensures r.pieces.current == Some(RotatedPose(s.pieces.current.value, s.board).0)
  {
    var pose := RotatedPose(s.pieces.current.value, s.board);
    if pose.1 {
      r := UpdateGhost(s.(pieces := WithCurrent(s.pieces, pose.0)));
    } else {
      r := s;
    }
  }

  /** `_hard_drop`: enter the fast-fall sub-mode. */
  function HardDrop(c: Controls, now: int): (r: Controls)
    ensures r.hardDropping && r.lastHardDropTime == now
    ensures r.(hardDropping := c.hardDropping, lastHardDropTime := c.lastHardDropTime) == c
  {
    c.(hardDropping := true, lastHardDropTime := now)
  }

  // ---------------------------------------------------------------------
  // The per-tick step

  /** Whether a key went down since the previous tick. */
  predicate Pressed(now: bool, before: bool) {
    now && !before
  }

  /** The invariants every step preserves. */
  predicate Kept(s: Session, r: Session) {
    && (Consistent(s.progress) ==> Consistent(r.progress))
    && (Coherent(s.ending) ==> Coherent(r.ending))
  }

  /** One hard-drop tick: once more than 10 ms have passed since the last
      step, step down and restart the step clock; a blocked step, which
      places the piece, ends the sub-mode. Before that nothing changes. */
  predicate HardDropDone(s: Session, r: Session, now: int, date: string, d: Draw)
    requires Ready(s) && ValidDraw(d)
  {
    var down := Move(s.pieces.current.value, 0, 1);
    if now - s.controls.lastHardDropTime > HardDropSpeed then
      && SteppedDown(s, r.(controls := s.controls), d, now, date)
      && r.controls == s.controls.(hardDropping := s.controls.hardDropping && IsValidPosition(down, s.board),
                                   lastHardDropTime := now)
    else r == s
  }

  method HardDropStep(s: Session, now: int, date: string, d: Draw) returns (r: Session)
    requires Ready(s) && ValidDraw(d)
    ensures Ready(r) && Kept(s, r) && r.mode == s.mode
    ensures HardDropDone(s, r, now, date, d)
  {
    r := s;
    if now - s.controls.lastHardDropTime > HardDropSpeed {
      var moved;
      r, moved := StepDown(s, d, now, date);
      var dropping := if moved then r.controls.hardDropping else false;
      r := r.(controls := r.controls.(hardDropping := dropping, lastHardDropTime := now));
    }
  }

  /** The pose an edge-triggered horizontal move leaves: moved by `dx` when
      the key went down and the moved pose is free, else unchanged. */
  function ShiftedPose(b: Block, board: Board, pressed: bool, dx: int): Block
    requires Valid(board)
  {
    if pressed && IsValidPosition(Move(b, dx, 0), board) then Move(b, dx, 0) else b
  }

  /** One edge-triggered horizontal move: move by `dx` when the key went
      down and the moved pose is free, the ghost following the press. */
  method Shift(s: Session, pressed: bool, dx: int, now: int, date: string, d: Draw) returns (r: Session)
    requires Ready(s) && ValidDraw(d)
    ensures Ready(r) && Kept(s, r)
    ensures !pressed ==> r == s
    ensures pressed ==> GhostFollows(r)
    ensures pressed ==> r == s.(pieces := WithCurrent(s.pieces, ShiftedPose(s.pieces.current.value, s.board, true, dx))
                                            .(ghostPiece := r.pieces.ghostPiece))
  {
    r := s;
    if pressed {
      var moved;
      r, moved := MoveBlock(s, dx, 0, d, now, date);
    }
  }

  /** The edge-triggered left and right moves of a normal tick: the piece
      moves one column left when Left went down and that pose is free, then
      one column right likewise; the ghost follows a press. Neither can place
      the piece, and nothing but the pieces changes. */
  predicate ShiftDone(s: Session, keys: Keys, r: Session)
    requires Ready(s)
  {
    var left := Pressed(keys.left, s.controls.lastKeys.left);
    var right := Pressed(keys.right, s.controls.lastKeys.right);
    var pose := ShiftedPose(ShiftedPose(s.pieces.current.value, s.board, left, -1), s.board, right, 1);
    && Ready(r) && Kept(s, r)
    && r == s.(pieces := WithCurrent(s.pieces, pose).(ghostPiece := r.pieces.ghostPiece))
    && (left || right ==> GhostFollows(r))
    && (!left && !right ==> r == s)
  }

  method ShiftStep(s: Session, keys: Keys, now: int, date: string, d: Draw) returns (r: Session)
    requires Ready(s) && ValidDraw(d)
    ensures ShiftDone(s, keys, r)
  {
    r := Shift(s, Pressed(keys.left, s.controls.lastKeys.left), -1, now, date, d);
    r := Shift(r, Pressed(keys.right, s.controls.lastKeys.right), 1, now, date, d);
  }

  /** The held soft drop of a normal tick: record whether Down is held and,
      if it is, step down, placing the piece when blocked. */
  predicate SoftDropDone(s: Session, keys: Keys, r: Session, now: int, date: string, d: Draw)
    requires Ready(s) && ValidDraw(d)
  {
    && Ready(r) && Kept(s, r) && r.controls == s.controls.(softDropping := keys.down)
    && (keys.down ==> SteppedDown(s, r.(controls := s.controls), d, now, date))
    && (!keys.down ==> r == s.(controls := r.controls))
  }

  method SoftDropStep(s: Session, keys: Keys, now: int, date: string, d: Draw) returns (r: Session)
    requires Ready(s) && ValidDraw(d)
    ensures SoftDropDone(s, keys, r, now, date, d)
  {
    r := s;
    if keys.down {
      var moved;
      r, moved := StepDown(s, d, now, date);
    }
    r := r.(controls := r.controls.(softDropping := keys.down));
  }

  /** The keys a normal tick leaves recorded: the arrows and space as held
      now, P and R as before. */
  function RecordMoveKeys(k: Keys, keys: Keys): Keys {
    k.(left := keys.left, right := keys.right, down := keys.down, up := keys.up, space := keys.space)
  }

  /** The edge-triggered rotation and hard drop of a normal tick, and the
      recording of the arrow and space keys: an Up press rotates the piece as
      `_rotate_block` does, a Space press enters the hard-drop sub-mode, and
      nothing but the pieces and the controls changes. */
  predicate TurnDone(s: Session, keys: Keys, r: Session, now: int)
    requires Ready(s)
  {
    && Ready(r) && r == s.(pieces := r.pieces, controls := r.controls)
    && r.controls == (if Pressed(keys.space, s.controls.lastKeys.space) then HardDrop(s.controls, now) else s.controls)
                       .(lastKeys := RecordMoveKeys(s.controls.lastKeys, keys))
    && (Pressed(keys.up, s.controls.lastKeys.up) ==> Turned(s, r))
    && (!Pressed(keys.up, s.controls.lastKeys.up) ==> r.pieces == s.pieces)
  }

  method TurnStep(s: Session, keys: Keys, now: int) returns (r: Session)
    requires Ready(s)
    ensures TurnDone(s, keys, r, now)
  {
    r := s;
    if Pressed(keys.up, s.controls.lastKeys.up) {
      r := RotateBlock(s);
    }
    var c := if Pressed(keys.space, s.controls.lastKeys.space) then HardDrop(s.controls, now) else s.controls;
    r := r.(controls := c.(lastKeys := RecordMoveKeys(c.lastKeys, keys)));
  }

  /** The interval the timed fall waits: the fall interval, or a third of it
      (rounded down) while soft dropping. */
  function FallInterval(c: Controls, fallSpeed: int): (ms: int)
    ensures c.softDropping ==> ms * SoftDropFactor <= fallSpeed < (ms + 1) * SoftDropFactor
    ensures !c.softDropping ==> ms == fallSpeed
  {
    if c.softDropping then fallSpeed / SoftDropFactor else fallSpeed
  }

  /** The timed fall of a normal tick: once more than the fall interval has
      passed since the last fall, step down, placing the piece when blocked,
      and restart the interval; before that nothing changes. */
  predicate FallDone(s: Session, r: Session, now: int, date: string, d: Draw)
    requires Ready(s) && ValidDraw(d)
  {
    if now - s.controls.lastFallTime > FallInterval(s.controls, s.progress.fallSpeed) then
      && SteppedDown(s, r.(controls := s.controls), d, now, date)
      && r.controls == s.controls.(lastFallTime := now)
    else r == s
  }

  method TimedFall(s: Session, now: int, date: string, d: Draw) returns (r: Session)
    requires Ready(s) && ValidDraw(d)
    ensures Ready(r) && Kept(s, r) && r.mode == s.mode
    ensures FallDone(s, r, now, date, d)
  {
    r := s;
    if now - s.controls.lastFallTime > FallInterval(s.controls, s.progress.fallSpeed) {
      var moved;
      r, moved := StepDown(s, d, now, date);
      r := r.(controls := r.controls.(lastFallTime := now));
    }
  }

  /** One normal tick: the left and right moves, the held soft drop, the
      rotation and hard drop with the keys recorded, then the timed fall,
      each applied to the session the one before left. */
  ghost predicate PlayDone(s: Session, keys: Keys, r: Session, now: int, date: string, d1: Draw, d2: Draw)
    requires Ready(s) && ValidDraw(d1) && ValidDraw(d2)
  {
    exists shifted, dropped, turned ::
      && ShiftDone(s, keys, shifted)
      && SoftDropDone(shifted, keys, dropped, now, date, d1)
      && TurnDone(dropped, keys, turned, now)
      && FallDone(turned, r, now, date, d2)
  }

  method PlayStep(s: Session, keys: Keys, now: int, date: string, d1: Draw, d2: Draw) returns (r: Session)
    requires Ready(s) && ValidDraw(d1) && ValidDraw(d2)
    ensures Ready(r) && Kept(s, r) && r.mode == s.mode
    ensures r.controls.(lastFallTime := s.controls.lastFallTime) ==
              (if Pressed(keys.space, s.controls.lastKeys.space) then HardDrop(s.controls, now) else s.controls)
                .(softDropping := keys.down, lastKeys := RecordMoveKeys(s.controls.lastKeys, keys))
    ensures PlayDone(s, keys, r, now, date, d1, d2)
  {
    var shifted := ShiftStep(s, keys, now, date, d1);
    var dropped := SoftDropStep(shifted, keys, now, date, d1);
    var turned := TurnStep(dropped, keys, now);
    r := TimedFall(turned, now, date, d2);
    assert ShiftDone(s, keys, shifted) && SoftDropDone(shifted, keys, dropped, now, date, d1)
        && TurnDone(dropped, keys, turned, now) && FallDone(turned, r, now, date, d2);
  }

  /** The combo display hides once it has shown for more than 2000 ms. */
  function LapseCombo(p: Progress, now: int): (r: Progress)
    ensures r.comboShow ==> now - r.comboTimer <= ComboDisplayDuration
    ensures r.comboShow == (p.comboShow && now - p.comboTimer <= ComboDisplayDuration)
    ensures r.(comboShow := p.comboShow) == p
  {
    if p.comboShow && now - p.comboTimer > ComboDisplayDuration then p.(comboShow := false) else p
  }

  /** The part of a tick after the pause and return-confirm handling: the
      hard-drop step while that sub-mode is on, the normal step otherwise,
      then the lapse of the combo display after 2000 ms and the ghost update. */
  ghost predicate AdvanceDone(s: Session, keys: Keys, r: Session, now: int, date: string, d1: Draw, d2: Draw)
    requires Ready(s) && ValidDraw(d1) && ValidDraw(d2)
  {
    exists m :: && Ready(m)
                && (if s.controls.hardDropping then HardDropDone(s, m, now, date, d1)
                    else PlayDone(s, keys, m, now, date, d1, d2))
                && r == UpdateGhost(m.(progress := LapseCombo(m.progress, now)))
  }

  /** The controls a game step leaves alone: pause, the return confirmation
      and the recorded P and R keys. */
  predicate SameHandling(c: Controls, r: Controls) {
    && r.paused == c.paused && r.returnConfirm == c.returnConfirm
    && r.returnConfirmTime == c.returnConfirmTime
    && r.lastKeys.p == c.lastKeys.p && r.lastKeys.r == c.lastKeys.r
  }

  /** The hard-drop step while that sub-mode is on, the normal step otherwise. */
  method GameStep(s: Session, keys: Keys, now: int, date: string, d1: Draw, d2: Draw) returns (r: Session)
    requires Ready(s) && ValidDraw(d1) && ValidDraw(d2)
    ensures Ready(r) && Kept(s, r) && r.mode == s.mode && SameHandling(s.controls, r.controls)
    ensures s.controls.hardDropping ==> HardDropDone(s, r, now, date, d1)
    ensures !s.controls.hardDropping ==> PlayDone(s, keys, r, now, date, d1, d2)
  {
    if s.controls.hardDropping {
      r := HardDropStep(s, now, date, d1);
    } else {
      r := PlayStep(s, keys, now, date, d1, d2);
    }
  }

  method Advance(s: Session, keys: Keys, now: int, date: string, d1: Draw, d2: Draw) returns (r: Session)
    requires Ready(s) && ValidDraw(d1) && ValidDraw(d2)
    ensures Ready(r) && GhostFollows(r) && Kept(s, r) && r.mode == s.mode && SameHandling(s.controls, r.controls)
    ensures AdvanceDone(s, keys, r, now, date, d1, d2)
    ensures r.progress.comboShow ==> now - r.progress.comboTimer <= ComboDisplayDuration
  {
    var m := GameStep(s, keys, now, date, d1, d2);
    r := UpdateGhost(m.(progress := LapseCombo(m.progress, now)));
  }

  /** The P key: a press toggles pause. */
  function TogglePause(c: Controls, keys: Keys): (r: Controls)
    ensures r.paused == (c.paused != Pressed(keys.p, c.lastKeys.p))
    ensures r == c.(paused := r.paused)
  {
    if Pressed(keys.p, c.lastKeys.p) then c.(paused := !c.paused) else c
  }

  /** The R key: a press while confirming asks to leave; a press otherwise
      starts the confirmation at `now`. */
  function ReturnKey(c: Controls, pressed: bool, now: int): (r: (Controls, bool))
    ensures r.1 <==> pressed && c.returnConfirm
    ensures r.1 || !pressed ==> r.0 == c
    ensures !r.1 && pressed ==> r.0 == c.(returnConfirm := true, returnConfirmTime := now)
  {
    if pressed && c.returnConfirm then (c, true)
    else if pressed then (c.(returnConfirm := true, returnConfirmTime := now), false)
    else (c, false)
  }

  /** A confirmation older than 3000 ms lapses. */
  function LapseConfirm(c: Controls, now: int): (r: Controls)
    ensures r.returnConfirm <==> c.returnConfirm && now - c.returnConfirmTime <= ReturnConfirmDuration
    ensures r == c.(returnConfirm := r.returnConfirm)
  {
    if c.returnConfirm && now - c.returnConfirmTime > ReturnConfirmDuration then c.(returnConfirm := false) else c
  }

  /** The controls the pause and return keys leave when the tick goes on:
      pause toggled on a P press, the confirmation started on an R press,
      P and R recorded, and a confirmation older than 3000 ms lapsed. It only
      names the composition; the properties it has are the explicit clauses
      of `HandleKeys`. */
  function KeysHandled(c: Controls, keys: Keys, now: int): Controls {
    var toggled := TogglePause(c, keys);
    var answered := ReturnKey(toggled, Pressed(keys.r, c.lastKeys.r), now).0;
    LapseConfirm(answered.(lastKeys := answered.lastKeys.(p := keys.p, r := keys.r)), now)
  }

  /** The pause and return keys at the head of `update`: a P press toggles
      pause; an R press while confirming asks to leave, otherwise starts the
      confirmation at `now`; P and R are recorded as held; a confirmation
      older than 3000 ms lapses. Returns the controls and whether to leave;
      leaving skips the recording and the lapse. Nothing else changes. */
  method HandleKeys(c: Controls, keys: Keys, now: int) returns (r: Controls, leave: bool)
    ensures leave <==> Pressed(keys.r, c.lastKeys.r) && c.returnConfirm
    ensures !leave ==> r == KeysHandled(c, keys, now)
    ensures r.paused == (c.paused != Pressed(keys.p, c.lastKeys.p))
    ensures !leave ==> && r.lastKeys == c.lastKeys.(p := keys.p, r := keys.r)
                       && (r.returnConfirm <==>
                             (now - r.returnConfirmTime <= ReturnConfirmDuration &&
                              (c.returnConfirm || Pressed(keys.r, c.lastKeys.r))))
                       && (Pressed(keys.r, c.lastKeys.r) ==> r.returnConfirmTime == now)
                       && (!Pressed(keys.r, c.lastKeys.r) ==> r.returnConfirmTime == c.returnConfirmTime)
    ensures leave ==> r.lastKeys == c.lastKeys && r.returnConfirm == c.returnConfirm
    ensures r.(paused := c.paused, returnConfirm := c.returnConfirm, returnConfirmTime := c.returnConfirmTime,
               lastKeys := c.lastKeys) == c
  {
    r := TogglePause(c, keys);
    var answered := ReturnKey(r, Pressed(keys.r, c.lastKeys.r), now);
    r, leave := answered.0, answered.1;
    if !leave {
      r := r.(lastKeys := r.lastKeys.(p := keys.p, r := keys.r));
      r := LapseConfirm(r, now);
    }
  }

  /** A game that is over starts showing its final score at `now`, once. */
  function ShowGameOver(e: Ending, now: int): (r: Ending)
    ensures Coherent(r) && r.gameOver == e.gameOver
    ensures e.display ==> r == e
    ensures e.gameOver && !e.display ==> r.display && r.displayTime == now
    ensures !e.gameOver ==> r == e
  {
    if e.gameOver && !e.display then e.(display := true, displayTime := now) else e
  }

  /** What the part of `update` after the pause and return keys does: an
      ended game starts showing its final score; once that has shown for more
      than 2000 ms the tick reports game over; a paused tick changes nothing
      else; otherwise the game advances, and the tick reports game over
      exactly when the game ended without its display. */
  ghost predicate Resumed(s: Session, keys: Keys, r: Session, status: Status, now: int, date: string,
                          d1: Draw, d2: Draw)
    requires Ready(s) && ValidDraw(d1) && ValidDraw(d2)
  {
    var shown := ShowGameOver(s.ending, now);
    if shown.display && now - shown.displayTime > GameOverDuration then
      status == GameOver && r == s.(ending := shown)
    else if s.controls.paused then
      status == Playing && r == s.(ending := shown)
    else
      && AdvanceDone(s.(ending := shown), keys, r, now, date, d1, d2)
      && status == (if !r.ending.display && r.ending.gameOver then GameOver else Playing)
  }

  /** The part of `update` after the pause and return keys: an ended game
      starts showing its final score; once that has shown for 2000 ms the
      tick reports game over; a paused tick changes nothing else; otherwise
      the game advances, and the tick reports game over when the game ended
      without its display. */
  method Resume(s: Session, keys: Keys, now: int, date: string, d1: Draw, d2: Draw) returns (r: Session, status: Status)
    requires Ready(s) && ValidDraw(d1) && ValidDraw(d2)
    ensures Ready(r) && Kept(s, r) && SameHandling(s.controls, r.controls) && status != ReturnToMenu
    ensures var shown := ShowGameOver(s.ending, now);
            && (shown.display && now - shown.displayTime > GameOverDuration ==>
                  status == GameOver && r == s.(ending := shown))
            && (!(shown.display && now - shown.displayTime > GameOverDuration) && s.controls.paused ==>
                  status == Playing && r == s.(ending := shown))
    ensures !r.controls.paused && status == Playing && !r.ending.display ==> GhostFollows(r) && !r.ending.gameOver
    ensures Resumed(s, keys, r, status, now, date, d1, d2)
  {
    r := s.(ending := ShowGameOver(s.ending, now));
    if r.ending.display && now - r.ending.displayTime > GameOverDuration {
      return r, GameOver;
    }
    if r.controls.paused {
      return r, Playing;
    }
    r := Advance(r, keys, now, date, d1, d2);
    status := if r.ending.display then Playing else if r.ending.gameOver then GameOver else Playing;
  }

  /** `update`: one tick at time `now` (ms) with the keys held. The P key
      toggles pause; a second R press while confirming returns to the menu;
      the confirmation lapses after 3000 ms; once the game-over display has
      shown for 2000 ms the tick reports game over; a paused tick changes
      nothing else; otherwise the game advances. */
  method Tick(s: Session, keys: Keys, now: int, date: string, d1: Draw, d2: Draw) returns (r: Session, status: Status)
    requires Ready(s) && ValidDraw(d1) && ValidDraw(d2)
    ensures Ready(r) && (Consistent(s.progress) ==> Consistent(r.progress))
    ensures r.controls.paused == (s.controls.paused != Pressed(keys.p, s.controls.lastKeys.p))
    ensures status == ReturnToMenu <==> Pressed(keys.r, s.controls.lastKeys.r) && s.controls.returnConfirm
    ensures status != ReturnToMenu ==>
              (r.controls.returnConfirm <==>
                 (now - r.controls.returnConfirmTime <= ReturnConfirmDuration &&
                  (s.controls.returnConfirm || Pressed(keys.r, s.controls.lastKeys.r))))
    ensures r.controls.paused ==> r.board == s.board && r.pieces == s.pieces && r.progress == s.progress && r.stats == s.stats
    ensures !r.controls.paused && status == Playing && !r.ending.display ==> GhostFollows(r) && !r.ending.gameOver
    ensures status == ReturnToMenu ==> r == s.(controls := r.controls)
    ensures status != ReturnToMenu ==>
              Resumed(s.(controls := KeysHandled(s.controls, keys, now)), keys, r, status, now, date, d1, d2)
  {
    var controls, leave := HandleKeys(s.controls, keys, now);
    r := s.(controls := controls);
    if leave {
      return r, ReturnToMenu;
    }
    r, status := Resume(r, keys, now, date, d1, d2);
  }
}
