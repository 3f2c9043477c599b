# Falling-block game engine (tetris.py)

A Dafny model of the game engine in `tetris.py`, without its pygame front
end. The model covers:

- **Shapes and scoring**: the seven kinds and their rotation tables, the
  20 x 10 board size, the line-clear score table, levels (one more every ten
  lines) and the gravity interval (800 ms, 70 ms faster per level, never
  below 100 ms).
- **Piece**: a kind, a rotation index into the kind's rotation table, and
  an anchor (row, col). `Cells` gives the absolute cells the piece covers.
  `RotatedCells` gives the cells after a rotation without changing the
  piece. `Rotate` commits a rotation, with the index taken modulo the
  number of rotation states.
- **Board helpers**:
  - `IsValid`: the placement check;
  - `LockPiece`: writes the piece's kind into its on-board cells;
  - `ClearLines`: the bottom-up scan. It deletes each full row, puts an
    empty row on top, and looks at the same index again.
- **Game**: a class whose fields are the board, score, lines, level, the
  bag, the current and next pieces, the game-over and pause flags, and the
  drop interval and timer. Its methods are:
  - the constructor and `Restart`;
  - the 7-bag randomizer (`RefillBag`, `NewPiece`);
  - `SpawnNext`;
  - the player commands: `Move`, `Rotate` with its four wall-kick offsets,
    `SoftDrop` and `HardDrop`;
  - `LockAndClear` and the gravity `Tick`.
- **Driver key gating**: the main loop's key dispatch is modelled as
  `KeyDown`. Restart is always honoured. After a game over, every other key
  is ignored. The pause key toggles the pause. While the game is paused,
  the command keys are ignored.

The board is a `seq` of rows, and each cell is `None` or `Some(kind)`. The
board helpers are functions and methods on board values, and the `Game`
methods assign their results to the `board` field. `ClearLines` keeps the
source's loop, with its invariants. It is proved equal to a specification
function, `ClearFull`: one empty row for each full row on top, followed by
the rows that were not full, in their order.

Each command's effect, including what it leaves alone, is a two-state
predicate of `Game`: `Shifted`, `Turned`, `SoftDropped`, `HardDropped` and
`LockedAndCleared`. The command's own contract and `KeyDown` share it.

The random shuffle is an arbitrary choice of a full bag. A ghost field,
`drawn`, records every kind dealt so far. The 7-bag guarantees are proved
over `drawn`.

## Model

| member | source | states |
|---|---|---|
| Shapes.Rotations | tetris.py:46-80 | O has one rotation state, I, S and Z have two, and T, J and L have four |
| Shapes.RotationsWellShaped | tetris.py:46-80 | every rotation state in the catalog has four distinct offsets. None lies above the anchor row, and at least one lies on it |
| Scoring.LineScore | tetris.py:85 | the score-table lookup gives 0 for any count missing from the table, and at least 100 per line for 1 to 4 lines |
| Scoring.Award | tetris.py:451 | the points for a clear are the table value times the level. They are 0 for any count missing from the table, and never less than the table value at level 1 or above |
| Scoring.LevelFor | tetris.py:452 | `lines // 10 + 1` is the unique level with `10*(level-1) <= lines < 10*level` |
| Scoring.Interval | tetris.py:405-407 | the interval lies between 100 and 800 ms, and it is exactly 100 ms from level 11 on |
| Scoring.MoreLinesScoreMore | tetris.py:85 | clearing more lines at once, from 0 up to 4, is worth strictly more |
| Scoring.AwardGrowsWithLevel | tetris.py:451 | the same clear is never worth less at a higher level |
| Scoring.IntervalNonIncreasing | tetris.py:405-407 | a higher level never has a longer drop interval |
| Scoring.WorkedExamples | tetris.py:447-454 | 23 lines give level 3 with an interval of 660 ms. Two lines at level 3 score 900, and four lines at level 1 score 800 |
| Pieces.NextRotation | tetris.py:190-199 | the new rotation index always lies in `[0, count)`, for any direction, negative ones included |
| Pieces.RotateBack | tetris.py:198-199 | rotating by `-d` after rotating by `d` restores the rotation index |
| Pieces.Compose | tetris.py:198-199 | rotating by `a` and then by `b` is the same as rotating once by `a + b` |
| Pieces.Steps | tetris.py:198-199 | after at least one single-step rotation the index lies in `[0, count)` |
| Pieces.StepsAreOneRotation | tetris.py:198-199 | `k` successive single-step rotations equal one rotation by `k` |
| Pieces.FullTurn | tetris.py:198-199 | `count` successive single-step rotations, starting from a valid index, return to that index |
| Pieces.Translate | tetris.py:183-188 | shifting cells by (dr, dc) keeps their number |
| Pieces.TranslateAt | tetris.py:183-188 | entry `i` of the shifted cells is offset `i` shifted by the anchor |
| Pieces.TranslateZero | tetris.py:416 | a shift by (0, 0) leaves the cells unchanged |
| Pieces.TranslateBack | tetris.py:416 | a shift followed by the opposite shift restores the cells |
| Pieces.TranslateTwice | tetris.py:416 | two shifts in a row equal one shift by the sums |
| Pieces.MoveAnchor | tetris.py:416-419 | moving the anchor by (dr, dc) shifts every cell of the piece by (dr, dc) |
| Pieces.TranslateEach | tetris.py:185-188 | entry `i` of the piece's cells is offset `i` of its rotation state moved to the anchor, for every `i` |
| Pieces.AnchoredShape | tetris.py:183-188 | a piece covers four distinct cells. None lies above its anchor row, and at least one lies on it |
| Pieces.Piece.constructor | tetris.py:173-180 | a new piece takes its kind's rotation table, rotation 0 and the spawn anchor `(0, COLS // 2 - 1)` |
| Pieces.Piece.Cells | tetris.py:182-188 | a piece covers four cells. Entry by entry they are the current rotation state's offsets moved to the anchor, as `Pieces.TranslateEach` states |
| Pieces.Piece.RotatedCells | tetris.py:190-196 | the cells after a rotation by `direction` are four: entry `i` is offset `i` of the state `(rot_index + direction) % len` moved to the unchanged anchor |
| Pieces.Piece.Rotate | tetris.py:198-199 | the rotation index advances modulo the number of states. The piece then covers exactly the cells `RotatedCells` gave, and the anchor is unchanged |
| Board.EmptyRow | tetris.py:207-208 | a row of COLS empty cells |
| Board.EmptyBoard | tetris.py:207-208 | a fresh board has ROWS rows of COLS cells, all empty |
| Board.IsValid | tetris.py:211-217 | the placement check, scanning the cells in order. Its meaning is proved as `Board.ValidIff` |
| Board.ValidIff | tetris.py:211-217 | the placement check holds iff every cell is on the board and empty |
| Board.AnchorRowOnBoard | tetris.py:211-217 | a piece in a valid position has its anchor row on the board |
| Board.Place | tetris.py:221-223 | writing one cell keeps the board's shape |
| Board.Locked | tetris.py:220-223 | locking a list of cells keeps the board's shape |
| Board.LockedCells | tetris.py:220-223 | after locking, an on-board cell holds the kind iff it is one of the piece's cells. Every other cell is unchanged, and off-board cells are skipped |
| Board.LockPiece | tetris.py:220-223 | the in-place loop produces exactly the locked board |
| Board.Full | tetris.py:230 | a row is full when every one of its cells is filled |
| Board.CountFull | tetris.py:230 | the number of full rows is at most the number of rows |
| Board.NonFull | tetris.py:226-236 | the surviving rows number the rows minus the full ones |
| Board.NonFullRows | tetris.py:226-236 | every surviving row is a row of the board, and none of them is full |
| Board.EmptyRows | tetris.py:232 | the inserted rows are all empty |
| Board.ClearFull | tetris.py:226-236 | clearing keeps the number of rows. A well-formed board stays well formed and is left with no full row |
| Board.ClearFullLayout | tetris.py:226-236 | after a clear, the top rows (one for each row removed) are empty, and the surviving rows follow them |
| Board.ClearLines | tetris.py:226-236 | the bottom-up scan returns the number of full rows, and leaves exactly the cleared board `ClearFull` |
| Board.ScanStep | tetris.py:229-235 | one scan step at a full row deletes it and inserts an empty row on top. At any other row the scan moves up. Either way the scan's layout invariant is kept |
| Board.NonFullAppend | tetris.py:226-236 | clearing keeps row order: the survivors of an upper part come before those of a lower part |
| Board.NonFullAround | tetris.py:226-236 | a row survives iff it is not full. It then sits after the survivors above it and before those below it |
| Board.ClearNothing | tetris.py:226-236 | a board with no full row is left unchanged, with a count of 0 |
| Board.ClearIdempotent | tetris.py:226-236 | clearing twice is the same as clearing once |
| Board.CountFullUpdate | tetris.py:223 | replacing one row adds at most one full row |
| Board.LockedFullRows | tetris.py:220-223 | locking four cells into a board with no full row creates at most four full rows, so at most four lines are cleared at once |
| Engine.AllKindsFull | tetris.py:82 | the catalog order contains every kind, seven entries in all |
| Engine.OnceInAllKinds | tetris.py:82 | each kind occurs exactly once in the catalog order |
| Engine.FullBagIsPermutation | tetris.py:396-398 | a full bag is exactly a permutation of the seven kinds, which is what shuffling the catalog list produces |
| Engine.Reverse | tetris.py:403 | the dealing order from a bag that is popped from the end has the same length as the bag |
| Engine.ReverseIndex | tetris.py:403 | the `i`-th kind dealt from a bag is its entry `|bag| - 1 - i` |
| Engine.BagsAppend | tetris.py:396-398 | appending one more full bag keeps a succession of full bags |
| Engine.RefillKeeps | tetris.py:401-402 | refilling an empty bag keeps the bag invariant |
| Engine.DrawKeeps | tetris.py:403 | popping the last kind keeps the bag invariant |
| Engine.KindWithinThirteen | tetris.py:396-403 | in a succession of full bags, every kind occurs in any 13 consecutive entries |
| Engine.DealtWithinThirteen | tetris.py:396-403 | every kind turns up among any 13 consecutive pieces dealt, so no kind is absent for more than 12 draws |
| Engine.BagsAligned | tetris.py:396-403 | in a succession of full bags, the seven entries starting at any multiple of seven form a full bag |
| Engine.DealtBagAligned | tetris.py:396-403 | the seven pieces dealt from any multiple of seven on are the seven kinds, each exactly once |
| Engine.KickFrom | tetris.py:429-434 | a kick offset found by the search is one of `[1, -1, 2, -2]`, and its shifted cells fit |
| Engine.KickFromFirst | tetris.py:429-434 | the search returns offset `j` iff `j` fits and no earlier offset does |
| Engine.KickFromNone | tetris.py:429-434 | the search finds nothing iff no offset fits |
| Engine.WallKick | tetris.py:423-434 | a rotation is placed with offset 0 iff the plain rotation fits. Any offset it chooses gives cells that fit |
| Engine.Landing | tetris.py:436-438 | a falling piece comes to rest at or below its row, where one more row down does not fit |
| Engine.LandingOnBoard | tetris.py:436-438 | a piece falling from a row on the board comes to rest on the board |
| Engine.LandingPath | tetris.py:437 | every row a piece passes through on its way down, down to the landing row, fits |
| Engine.LandingUnique | tetris.py:437 | a row reached through fitting rows, below which the piece does not fit, is the landing row |
| Engine.OLandsAtBottom | tetris.py:436-439 | on an empty board, an O piece dropped from the spawn position rests on the bottom two rows |
| Engine.Game.constructor | tetris.py:377-394 | a new game satisfies the invariant. Its board is empty, its counters are 0, 0 and 1, the interval is 800 ms, neither flag is set, the first two kinds dealt are the current and the next piece, and the bag holds the five other kinds of the same shuffle |
| Engine.Game.Restart | tetris.py:467-468 | restart reinitialises every field as the constructor does: freshly drawn current and next pieces taken from one new shuffle, whose other five kinds are left in the bag |
| Engine.Game.RefillBag | tetris.py:396-398 | the bag becomes a full bag: a shuffle of the seven kinds |
| Engine.Game.NewPiece | tetris.py:400-403 | an empty bag is refilled with a full bag first. The last kind is popped, recorded as dealt and returned as a new piece at the spawn position; the rest of the bag is kept, and the bag invariant holds |
| Engine.Game.SpawnNext | tetris.py:409-413 | the next piece becomes the current one, and a fresh next piece is dealt from the bag. The game is over iff it was already over or the new current piece does not fit |
| Engine.Game.Move | tetris.py:415-421 | the piece moves iff the shifted cells fit. It then moves by exactly (dr, dc) and keeps its rotation; otherwise it stays put. Nothing else in the game changes |
| Engine.Game.Rotate | tetris.py:423-434 | the rotation is committed with the first offset among 0, 1, -1, 2, -2 that fits, and the result fits. If none fits, the piece is unchanged. The row and the rest of the game are unchanged |
| Engine.Game.SoftDrop | tetris.py:441-445 | the piece moves one row down iff it fits there. Only then is 1 point added. Nothing else changes |
| Engine.Game.DropToRest | tetris.py:437-438 | the piece falls row by row, earning 2 points per row. Every row it passes fits, and it stops where one more row down does not |
| Engine.Game.HardDrop | tetris.py:436-439 | the piece falls fewer than ROWS rows, through fitting rows, to a row where the next one down does not fit. It scores 2 points per row and is then locked and cleared, with a fresh next piece dealt from the bag. The drop timer is kept |
| Engine.Game.LockBoard | tetris.py:448-449 | the board becomes the cleared locked board. The count returned is its number of full rows, at most four |
| Engine.Game.AddLines | tetris.py:450-453 | lines grow by the count cleared, the score by the table value times the level from before the update, and level and interval follow the new line count |
| Engine.Game.LockAndClear | tetris.py:447-454 | lines grow by the count cleared. The score grows by the table value times the level from before the update. Level and interval follow the new line count. The next piece is promoted and a fresh next piece is dealt from the bag. The game is over iff the promoted piece does not fit. The pause flag and the drop timer are kept |
| Engine.Game.Tick | tetris.py:456-465 | nothing changes when the game is over or paused. Otherwise the timer accumulates. When it reaches the interval, the timer resets and the piece moves down one row, or is locked and cleared if it cannot move. Short of a lock, only the timer and the piece's row change: the board, the counters, the bag, the queued piece and both flags are kept |
| Engine.Game.KeyDown | tetris.py:496-521 | restart is always honoured. After a game over, every other key changes nothing. The pause key toggles the pause and changes nothing else. While paused, the command keys and any other key change nothing. While running, Left and Right have the effect of `move(0, -1)` and `move(0, 1)`, Down that of `soft_drop`, Up that of `rotate(1)` and Space that of `hard_drop` |

## Left out

- Rendering, the bitmap font, the window and the event loop are not part of this model. Only the key dispatch of the main loop is modelled, as `KeyDown`.
- Held-key auto-repeat in the main loop, the `move_delay`, `move_repeat`, `move_timer` and `move_dir` fields, and the pygame clock are not modelled. `dt` is a parameter of `Tick`.
- `random.shuffle` is modelled as an arbitrary permutation of the seven kinds. The random number generator itself is not modelled.
- Piece colours are not modelled. The kind name is kept as the enumeration `Kind`.
- The board helpers work on board values. `Game` assigns their results to its `board` field. The in-place `del`/`insert` of the Python list is modelled by sequence slicing and concatenation.
- `Engine.Game.LockAndClear` delegates the lock and the clear to a helper, `LockBoard`, and the counter updates to another, `AddLines`. `AddLines` keeps the source's sequential updates.
- `Engine.Game.HardDrop` runs its fall loop in the helper `DropToRest`. The contract names the landing row through the fitting rows and the non-fitting row below it. `Engine.LandingUnique` and `Engine.LandingPath` show that this row is the one `Engine.Landing` computes.
- The constructor first installs two placeholder pieces of kind I, then calls `Restart`. This mirrors `restart` re-running `__init__`; the placeholders are never observable.
- `Pieces.Piece.Cells` states only that a piece covers four cells. The entry-by-entry form is the lemma `Pieces.TranslateEach`, kept out of the function's own contract so that proofs mentioning a piece's cells stay small.
- A piece's rotation table is a field fixed at construction. That it equals the catalog entry is stated by the constructor.
- Aliasing between the game's pieces is limited to the invariant `current != next`.
- Integers are unbounded. Python's integers are too, so nothing is lost.
