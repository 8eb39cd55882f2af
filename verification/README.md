# Falling-block game core in Dafny

This project models the deterministic core of a Python falling-block
puzzle game and proves properties of the model. The Dafny files cover:

- pieces (origin, 0/1 shape matrix, colour, type tag, rotation state 0..3) and their occupied cells;
- the integer board with placement, the exploding-piece blast and full-row clearing;
- the collision queries of the physics engine;
- the piece factory, with every random outcome passed in as a `Draw`;
- the game session: mode restart, movement with placement, the wall-kick
  rotation, scoring with combos and levels, the ghost piece, and the per-tick
  `update` step driven by held keys and an integer millisecond timestamp;
- the pure helpers of the statistics object: the counters, the saved record,
  the best score by mode, the most recent games, and the 100-record history cap;
- the main menu's debounced cursor, its Enter action and `_wrap_text`.

Every operation is a pure function or a method over immutable datatypes.
A Python mutator becomes a function that returns the new value.

| file | module | models |
|---|---|---|
| blocks.dfy | `Blocks` | blocks/base_block.py |
| board.dfy | `Boards` | core/board.py |
| physics.dfy | `Physics` | physics/engine.py (`can_move`, `is_valid_position`, `handle_collisions`) |
| factory.dfy | `Factory` | blocks/block_factory.py |
| statistics.dfy | `Statistics` | analytics/statistics.py (the in-memory parts) |
| game.dfy | `Game` | core/game.py |
| menu.dfy | `Menu` | ui/menu.py (`_handle_input`, `update`, `_wrap_text`) |

The session is split into sub-records, so a step's "nothing else changes" is
one equality per part:

- `Pieces`: current, next and ghost, and whether current and next are one object;
- `Progress`: score, level, fall interval, combo, lines of the last clear, best score;
- `Ending`: game over and the final-score display;
- `Controls`: recorded keys, fall and hard-drop clocks, soft drop, pause, return confirmation.

When a spawned piece does not fit, `_place_block` makes the next piece
current and stops, so `current_block` and `next_block` name one object from
then on. The model records this in `Pieces.shared`: while it is set, a move or
rotation of the current piece moves the next piece too (`WithCurrent`).

Each per-tick step has a named relation between the session before and after
it (`SteppedDown`, `Turned`, `Placed`, `ShiftDone`, `SoftDropDone`,
`TurnDone`, `FallDone`, `HardDropDone`). `PlayDone` and `AdvanceDone` chain
them in the order `update` runs them, each step on the session the previous
one left.

## Model

| member | source | states |
|---|---|---|
| Blocks.NewBlock | blocks/base_block.py:2-8 | a new piece has the given origin, shape, colour and type, in rotation state 0 |
| Blocks.Copy | blocks/base_block.py:10-23 | the deep copy has equal x, y, shape, colour, type and rotation |
| Blocks.CopyIsIndependent | blocks/base_block.py:10-23 | moving or rotating the copy gives the original's coordinates shifted or rotated; the original value is untouched |
| Blocks.RowEntriesExact | blocks/base_block.py:25-34 | one row lists exactly its truthy columns, strictly left to right |
| Blocks.RowEntriesCount | blocks/base_block.py:25-34 | one row yields one entry per non-zero column |
| Blocks.EntriesFromExact | blocks/base_block.py:25-34 | the enumerated entries are exactly the truthy matrix positions, in row-major order |
| Blocks.EntriesExact | blocks/base_block.py:25-34 | a position is enumerated iff it indexes a truthy element |
| Blocks.EntriesDistinct | blocks/base_block.py:25-34 | no truthy entry is listed twice |
| Blocks.EntriesCount | blocks/base_block.py:25-34 | a shape yields one entry per non-zero element |
| Blocks.TransformIsTurns | blocks/base_block.py:36-46 | characterizes `Transform`: the transform of rotation state k is k quarter turns (x, y) -> (size-1-y, x), and four quarter turns are the identity |
| Blocks.Untransform | blocks/base_block.py:36-46 | the inverse of each rotation transform: transforming its result gives back the offset |
| Blocks.TransformBijective | blocks/base_block.py:36-46 | each of the four transforms, with size the row count, is a bijection on integer pairs |
| Blocks.Cells | blocks/base_block.py:25-46 | one occupied cell per truthy entry, in enumeration order, each the origin plus the transformed offset; a board cell is occupied iff it is the image of a truthy entry; no cell is listed twice |
| Blocks.PlaceInjective | blocks/base_block.py:25-46 | distinct matrix positions land on distinct board cells |
| Blocks.CellsAtRotationZero | blocks/base_block.py:36-40 | at rotation 0 each cell is the origin plus (column, row) of its entry |
| Blocks.StraightPieceAtRotationTwo | blocks/base_block.py:38-44 | the 1x4 bar at rotation 2 uses size 1 (its row count) and so extends left of its origin |
| Blocks.StraightEntries | blocks/base_block.py:25-34 | the bar's entries are its four columns in order |
| Blocks.Move | blocks/base_block.py:48-51 | only x and y change, by exactly dx and dy |
| Blocks.MoveShiftsCells | blocks/base_block.py:25-51 | every occupied cell shifts by exactly (dx, dy) |
| Blocks.MoveInverse | blocks/base_block.py:48-51 | moving back by the opposite offset restores the piece |
| Blocks.Rotate | blocks/base_block.py:53-58 | only the rotation state changes: it steps by one modulo 4 and stays in 0..3 |
| Blocks.FourRotationsRestore | blocks/base_block.py:53-58 | four clockwise rotations restore the piece |
| Blocks.RotateInverse | blocks/base_block.py:53-58 | clockwise then counter-clockwise, and the reverse, are the identity |
| Blocks.CellValue | blocks/base_block.py:60-71 | "normal" writes its colour; exploding writes -1, rainbow -2, freezing -3; any other type writes -99 |
| Blocks.SpecialCodesDistinct | blocks/base_block.py:60-71 | the special codes identify the special type |
| Blocks.IsSpecial | blocks/base_block.py:73-75 | for a non-negative colour, a piece is special iff its board code is negative |
| Boards.NewBoard | core/board.py:2-6 | a height x width grid of zeros |
| Boards.Clear | core/board.py:8-10 | an all-zero grid with unchanged width and height |
| Boards.InBounds | core/board.py:12-14 | on a well-formed board, true iff (x, y) indexes a grid cell |
| Boards.IsCellEmpty | core/board.py:12-20 | false off the board; otherwise true iff the cell holds 0 |
| Boards.WriteCells | core/board.py:22-26 | every on-board listed cell gets the value; every other cell keeps its value; off-board cells are dropped |
| Boards.SquareRowsExact | core/board.py:42-48 | the explosion loops visit exactly the cells of the square |
| Boards.ExplodeArea | core/board.py:42-48 | every on-board cell within 2 of the centre in both axes becomes 0; no other cell changes |
| Boards.RainbowAdapt | core/board.py:50-53 | the rainbow hook leaves the board unchanged |
| Boards.TriggerSpecialEffect | core/board.py:32-40 | only an exploding piece changes the board; the rainbow and freezing hooks do nothing |
| Boards.PlaceBlock | core/board.py:22-30 | non-exploding piece: its on-board cells hold its code and no other cell changes; exploding piece: the 5x5 square around its origin is zero, its other cells hold its code, and the rest is unchanged |
| Boards.FullIndicesExact | core/board.py:56-59 | the collected indices are exactly the full rows, as many as `CountFull` |
| Boards.KeepRowsIsNonFull | core/board.py:65-68 | the kept rows are the non-full rows in their original order |
| Boards.PrependEmptyIsPadding | core/board.py:71-73 | inserting n empty rows at the top n times is padding with n empty rows |
| Boards.CountPlusKept | core/board.py:55-79 | every row is either counted as full or kept as non-full |
| Boards.NoFullRows | core/board.py:61-62 | with no full row nothing is counted or removed |
| Boards.SomeFullRow | core/board.py:57-59 | a grid with a full row has a positive count |
| Boards.NonFullAppend | core/board.py:65-68 | filtering out full rows distributes over concatenation |
| Boards.ClearLines | core/board.py:55-79 | returns the number of full rows; the grid keeps its dimensions; the first k rows are empty and the rest are exactly the non-full rows in order; with no full row the board is unchanged |
| Boards.ClearLinesZeroIffNoFullRow | core/board.py:61-62 | the result is 0 iff no row is full |
| Boards.ClearLinesIdempotent | core/board.py:55-79 | on a board at least one cell wide, clearing a cleared board removes nothing and changes nothing |
| Boards.NonFullSingle | core/board.py:65-68 | with one full row, the kept rows are those above and below it |
| Boards.ClearSingleFullRow | core/board.py:55-79 | one full row: it is removed and one empty row is added at the top |
| Physics.ValidCells | physics/engine.py:21-30 | the cell loop accepts iff every cell is on the board and empty |
| Physics.ValidPositionExact | physics/engine.py:21-30 | characterizes `IsValidPosition`: a pose is valid iff every occupied cell satisfies 0 <= x < width, 0 <= y < height and holds 0; a cell above the top makes the pose invalid |
| Physics.CanMove | physics/engine.py:6-19 | the piece is left as it came in, and the verdict is the validity of the translated pose |
| Physics.CanMoveExact | physics/engine.py:6-19 | `can_move` holds iff every shifted cell is free |
| Physics.CollidesBelow | physics/engine.py:48-55 | true iff some cell is on or below the last row, or has a filled or off-board cell below it |
| Physics.HandleCollisions | physics/engine.py:48-55 | a reported collision means the piece cannot move down |
| Physics.RestingIsBlocked | physics/engine.py:48-55 | a piece that rests on the floor or a filled cell cannot move down |
| Physics.UnsupportedCanFall | physics/engine.py:48-55 | a piece at most one row above the top that does not rest can move down |
| Physics.RestingIffBlockedBelow | physics/engine.py:48-55 | for a piece at most one row above the top, `handle_collisions` holds iff the piece cannot move down |
| Factory.TypeName | blocks/block_factory.py:36 | every special type tag is one of the three with a board code |
| Factory.ClassicShapesWellFormed | blocks/block_factory.py:7-15 | every canonical shape is a non-empty rectangular 0/1 matrix |
| Factory.ClassicShapesAreTetrominoes | blocks/block_factory.py:7-15 | every canonical shape has exactly four truthy entries |
| Factory.ClassicColorsDistinct | blocks/block_factory.py:25-33 | every canonical shape's colour is in 1..7 and no two shapes share one |
| Factory.SpecialShapesWellFormed | blocks/block_factory.py:18-22 | every extra shape is a non-empty rectangular 0/1 matrix |
| Factory.SpecialShapesAreLarger | blocks/block_factory.py:18-22 | every extra shape has at least five truthy entries |
| Factory.CreateClassicBlock | blocks/block_factory.py:63-68 | a "normal" piece with a canonical shape and that shape's colour in 1..7, at the given origin, rotation 0 |
| Factory.CreateSpecialBlock | blocks/block_factory.py:70-86 | a special piece with colour 8..10, a shape from the canonical table when the shape roll is below 0.5 and from the extra table otherwise |
| Factory.CreateBlock | blocks/block_factory.py:38-61 | spawns at (4, 0) in rotation 0; classic and unknown modes give a classic piece; challenge and timed modes give a special piece exactly when the roll is below 0.1 and 0.2 respectively |
| Factory.ClassicAndSpecialDisjoint | blocks/block_factory.py:63-86 | a classic piece is not special, and a special piece is |
| Factory.TableShapesHaveCell | blocks/block_factory.py:7-22 | every table shape has a truthy entry |
| Factory.CreatedBlockHasCells | blocks/block_factory.py:38-86 | every created piece occupies at least one cell |
| Statistics.NewStats | analytics/statistics.py:10-26 | the counters start at zero over the loaded history |
| Statistics.Update | analytics/statistics.py:28-36 | adds the lines, one placed piece and one to the type's count; other types' counts and the history are unchanged |
| Statistics.Retain | analytics/statistics.py:237-241 | keeps the last 100 records in their order, or all when there are fewer |
| Statistics.SaveGameData | analytics/statistics.py:38-68 | appends one record holding the game's score, level, mode and counters, truncates to 100 and resets the counters |
| Statistics.ModeHistory | analytics/statistics.py:201-203 | each record of the mode as many times as the history holds it, and no other record |
| Statistics.MaxScore | analytics/statistics.py:205-209 | the largest score of a non-empty list, attained by some record |
| Statistics.HighestScore | analytics/statistics.py:196-209 | 0 when no record matches; otherwise the largest matching score; an empty mode matches every record |
| Statistics.StrLeTotal | analytics/statistics.py:216-223 | Python string order is total |
| Statistics.StrLeTransitive | analytics/statistics.py:216-223 | Python string order is transitive |
| Statistics.InsertKeepsBound | analytics/statistics.py:216-223 | inserting keeps every date no later than a common bound |
| Statistics.InsertPermutes | analytics/statistics.py:216-223 | insertion adds exactly the inserted record |
| Statistics.InsertSorted | analytics/statistics.py:216-223 | insertion keeps a newest-first list newest first |
| Statistics.SortByDateDesc | analytics/statistics.py:216-223 | the sort is a permutation and newest first |
| Statistics.PrefixLength | analytics/statistics.py:219-223 | Python's `[:limit]` length: at most the length, and the limit when that is smaller and non-negative |
| Statistics.Selected | analytics/statistics.py:214-220 | each record the mode filter selects as many times as the history holds it, and no other record |
| Statistics.PrefixIsNewest | analytics/statistics.py:219-223 | a prefix of a newest-first list is newest first, and no record left out is newer than one kept |
| Statistics.RecentScores | analytics/statistics.py:211-225 | as many records as `[:limit]` keeps of the selected ones, all from the history and matching the filter, newest first, none newer left out |
| Menu.NewMenu | ui/menu.py:28-30 | the cursor starts on the first option, "start_classic", and the key clock at 0 |
| Menu.HandleInput | ui/menu.py:43-55 | nothing changes within 200 ms of the last accepted move; the cursor stays in range and moves by at most one; the timestamp changes exactly when the cursor moves; a move up needs Up held and a move down needs Down held without an effective Up; Up wins over Down |
| Menu.MenuUpdate | ui/menu.py:32-41 | the cursor update, then the selected option's action when Enter is held and none otherwise |
| Menu.UpTakesPrecedence | ui/menu.py:50-55 | with Up and Down held away from the top, the cursor moves up |
| Menu.Split | ui/menu.py:99 | Python's `split(' ')`: at least one word, none containing a space |
| Menu.JoinSplit | ui/menu.py:99 | joining the split words with spaces gives back the text |
| Menu.SplitJoin | ui/menu.py:99 | splitting the joined space-free words gives back the words |
| Menu.SumLenAppend | ui/menu.py:110-112 | the running length adds the word's length |
| Menu.JoinLength | ui/menu.py:104-105 | a joined group is its letters plus one space per gap |
| Menu.FlattenAppend | ui/menu.py:104-116 | the words of the groups extend by the new group |
| Menu.WrapLoop | ui/menu.py:103-116 | the loop's groups are exactly the words in order; later groups are non-empty; every group fits; the first group is empty iff the first word is too long; each group ends only because the next group's first word would not fit on it |
| Menu.WrapGroups | ui/menu.py:97-118 | at least one group; the groups are the words in order; every group fits or is one word; only the first group can be empty, and it is empty iff the first word is too long; the packing is greedy: every group but the last overflows with the next word added |
| Menu.WrapText | ui/menu.py:97-118 | at least one line; each line is its group joined, the groups being the greedy packing `WrapGroups` states; each line is empty, a single word or at most the limit long |
| Menu.WrapTextKeepsWords | ui/menu.py:97-118 | the lines' word groups are `text.split(' ')` in order, so rejoining gives the text |
| Game.FallSpeedFor | core/game.py:363-365 | at least 100 ms; 1000 - (level-1)*100 up to level 10; 100 from level 10 on |
| Game.NewSession | core/game.py:11-73 | an empty 10x20 board, no pieces, score 0, level 1, a 1000 ms fall interval, combo 0 and hidden, best score 0, not over and no final-score display, not paused, no hard drop, no return confirmation, mode "classic", the given statistics |
| Game.SetModeAsWritten | core/game.py:75-104 | a fresh game at level 1 that keeps the previous game's fall interval |
| Game.SetModeAsWrittenKeepsStaleSpeed | core/game.py:75-104 | restarting after a level-5 game gives level 1 with a 600 ms interval, which breaks the level/interval invariant |
| Game.SetMode | core/game.py:75-104 | a cleared board of the same size, two created pieces and no ghost, score 0, level 1 and its interval, combo 0, not over, not paused, the mode's best score |
| Game.ScoreDelta | core/game.py:331-351 | (lines*100 + combo bonus from the second consecutive clear + multi-line bonus) * level, at least 100 for a clear |
| Game.ScoringExamples | core/game.py:331-351 | a first four-line clear at level 1 scores 1200; a third consecutive single at level 2 scores 500 |
| Game.ScoreLines | core/game.py:325-370 | a clear bumps the combo, shows it, adds `ScoreDelta` and gains at most one level when score//1000 > level-1, with the interval following the level; no clear resets the combo and keeps score and level; the level/interval invariant is kept |
| Game.CommitPiece | core/game.py:322-373 | the board becomes the placed-and-cleared board, the progress is scored for the cleared rows, and the statistics count the piece; the pieces are untouched |
| Game.SpawnNext | core/game.py:375-393 | the next piece becomes current; if it does not fit, the game ends showing its score from now, the record is saved, and current and next stay one object; otherwise a new next piece is created and the best score becomes max(best, score) |
| Game.PlacePiece | core/game.py:320-393 | `Placed`: the board is the placed-and-cleared board and the progress is scored for the cleared rows; the next piece becomes current; if it does not fit, the game ends showing its score, the record is saved with the new score and level, and current and next are one object; otherwise a new next piece is created, the piece is counted and the best score rises to the score; controls and ghost untouched; the invariants are kept |
| Game.DropGhost | core/game.py:395-406 | the ghost is the piece at some row no higher, and cannot move down |
| Game.DropGhostFirstRest | core/game.py:404-406 | from every row between the piece and the ghost the piece can move down, so the ghost is the first resting row |
| Game.DropGhostIdempotent | core/game.py:404-406 | dropping the ghost again leaves it where it is |
| Game.GhostRests | core/game.py:404-406 | the ghost of a valid pose is valid and rests on the floor or a filled cell |
| Game.UpdateGhost | core/game.py:395-406 | the ghost follows the current piece: same column, rotation and shape, no higher, unable to move down; nothing else changes |
| Game.MoveBlock | core/game.py:249-265 | moves iff the translated pose is valid, and then the current piece takes it, the next piece too while they are one object; a blocked downward move is `Placed`; any other blocked move changes only the ghost; the ghost follows the current piece; controls and mode are untouched |
| Game.StepDown | core/game.py:249-265 | `SteppedDown`: one row down when that pose is free, the next piece following while it is the same object, otherwise `Placed`; the ghost follows; the controls are untouched |
| Game.KickSearch | core/game.py:283-305 | returns the first probe whose pose is valid, with every earlier probe invalid, or none with every probe invalid and the piece restored |
| Game.RotatedPose | core/game.py:267-310 | the rotation if it fits, else the first fitting kick of it, else the original piece; a pose that took is valid and keeps the shape |
| Game.KickLeftFirst | core/game.py:283-305 | a blocked rotation that fits one column left ends one column left |
| Game.RotateBlock | core/game.py:267-310 | `Turned`: the current piece ends in `RotatedPose`'s pose; a rotation that took moves the next piece along while they are one object and recomputes the ghost; one that failed changes nothing; only the pieces change |
| Game.HardDrop | core/game.py:312-318 | the hard-drop sub-mode starts at the given time; no other control changes |
| Game.HardDropStep | core/game.py:160-167 | `HardDropDone`: nothing happens within 10 ms; otherwise the step is exactly `SteppedDown`, the sub-mode ends exactly when the step was blocked, and the clock restarts |
| Game.Shift | core/game.py:175-180 | a pressed horizontal key moves the piece when the pose fits; the board and the score are untouched |
| Game.ShiftStep | core/game.py:173-180 | `ShiftDone`: on a Left edge the piece moves one column left when that pose is free, then on a Right edge one column right likewise; the next piece follows while it is the same object; only the pieces change, so nothing is placed; no edge changes nothing |
| Game.SoftDropStep | core/game.py:182-186 | `SoftDropDone`: records whether Down is held; a held Down is exactly `SteppedDown`; otherwise nothing else changes |
| Game.TurnStep | core/game.py:189-199 | `TurnDone`: an Up edge rotates as `Turned` states; a Space edge starts the hard drop at now; the arrow and Space keys are recorded; without an Up edge the pieces are untouched; nothing else changes |
| Game.FallInterval | core/game.py:201-204 | the fall interval, or its floor third while soft dropping |
| Game.TimedFall | core/game.py:201-208 | `FallDone`: nothing happens until more than the fall interval has passed; then the step is exactly `SteppedDown` and the fall clock restarts at now |
| Game.PlayStep | core/game.py:168-208 | `PlayDone`: the shifts, the soft drop, the rotation and hard-drop keys and the timed fall, in that order, each on the session the previous one left; the controls end with soft drop as held, hard drop on a Space edge and the keys recorded |
| Game.LapseCombo | core/game.py:226-227 | the combo display is shown iff it was shown and at most 2000 ms old; nothing else changes |
| Game.GameStep | core/game.py:159-208 | `HardDropDone` while the hard-drop sub-mode is on, `PlayDone` otherwise; pause, the confirmation and the P and R keys are untouched |
| Game.Advance | core/game.py:159-231 | `AdvanceDone`: the hard-drop or normal step, then the combo lapse and the ghost update; the ghost follows the current piece; pause and confirmation untouched; a shown combo is at most 2000 ms old |
| Game.TogglePause | core/game.py:114-115 | a P edge toggles pause; nothing else changes |
| Game.ReturnKey | core/game.py:120-127 | an R edge while confirming asks to leave; an R edge otherwise starts the confirmation at now |
| Game.LapseConfirm | core/game.py:135-136 | the confirmation survives iff it is at most 3000 ms old |
| Game.HandleKeys | core/game.py:114-136 | pause toggles on a P edge; leave iff an R edge while confirming; otherwise the controls are `KeysHandled`: P and R recorded, confirmation on iff started by this or an earlier R edge and at most 3000 ms old |
| Game.ShowGameOver | core/game.py:139-141 | an ended game starts showing its score at now, once; afterwards "over means shown" holds |
| Game.Resume | core/game.py:138-247 | `Resumed`: an ended game starts showing its score; once that has shown for more than 2000 ms the tick reports game over and nothing else changes; a paused tick changes only the display; otherwise the session advances exactly as `AdvanceDone` states, and the tick reports game over iff the game ended without its display; it never reports leaving |
| Game.Tick | core/game.py:106-247 | a P edge toggles pause; leaving iff an R edge while confirming, and then only the controls change; otherwise the rest of the tick is `Resumed` on the controls `KeysHandled` gives, so a tick that is neither paused nor past the final-score display advances the game; a playing tick that is not showing the final score has the ghost on the current piece and the game not over |

## Left out

- Rendering, fonts and the menu's `_render`: drawing only.
- Audio cues: `play_sound` calls have no effect on state.
- File and JSON I/O of the history, `strftime` and the statistics charts. The history is an in-memory sequence, and the date string is an input of `SaveGameData`.
- The `duration` and start time that `save_game_data` computes are left out, because they come from the wall clock.
- The clock: `pygame.time.get_ticks()` becomes the integer millisecond parameter `now` of `Tick`, `Resume`, `Advance`, `PlacePiece`, `MenuUpdate` and `HandleInput`, so one tick reads one time. In the source, `_hard_drop`, the combo timer and a placement that ends the game read the clock again within the same tick; the model gives them the tick's `now`.
- `apply_gravity` and the timed-mode countdown in `update` (core/game.py:210-223), which use float seconds; `set_mode`'s timer reset goes with them.
- Randomness: the factory's random outcomes arrive in a `Draw`, and the 10% and 20% rates are not modelled.
- Game.Tick: the source draws a fresh random outcome at each placement. A tick places at most twice, by the soft drop and then by the timed fall, so `Tick` and `Advance` take two draws: the first serves the moves, the soft drop and a hard-drop step, the second the timed fall.
- Game.NewSession: `highest_score` is not set in `__init__`. The model starts it at 0, and `set_mode` sets it before any game is played.
- Game.Tick: requires current and next pieces that occupy cells, as after `set_mode`. Before any mode is set the source would fail on `None`.
- Game.Tick: `show_ghost` is always true in the source, so the ghost is always recomputed.
- Blocks.Copy: with value semantics a copy equals its original, so the independence of the deep copy holds trivially.
- Statistics.SortByDateDesc: records with equal dates are proved sorted and permuted, but their relative order (Python's stable sort) is not stated.
- Game.HardDrop: a one-line setter whose contract is its effect; `HardDropStep` states what the sub-mode then does.

## Findings

| source | as written | input that shows it | evidently intended | confidence | as-written member | corrected member |
|---|---|---|---|---|---|---|
| core/game.py:75-104 | `set_mode` resets the level to 1 but not `fall_speed`, while main.py reuses one game object for every new game | finish a game at level 5 (fall interval 600 ms), then start a new game: level 1 with pieces falling every 600 ms instead of 1000 ms | a new game starts at level 1 with level 1's fall interval of 1000 ms, as `__init__` sets it | not executed | Game.SetModeAsWritten, Game.SetModeAsWrittenKeepsStaleSpeed | Game.SetMode |
