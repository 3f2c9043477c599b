// The playfield: a ROWS x COLS grid of cells, each empty or holding the kind
// of the piece that was locked there, with the placement check, locking and
// line clearing.

module Board {
  import opened Wrappers
  import opened Shapes
  import opened Pieces

  type Row = seq<Option<Kind>>
  type Grid = seq<Row>

  /** The board has ROWS rows of COLS cells each. */
  predicate WellFormed(b: Grid) {
    |b| == ROWS && forall r :: 0 <= r < |b| ==> |b[r]| == COLS
  }

  predicate InBounds(cell: Cell) {
    0 <= cell.0 < ROWS && 0 <= cell.1 < COLS
  }

  function EmptyRow(): (row: Row)
    ensures |row| == COLS
    ensures forall c :: 0 <= c < |row| ==> row[c] == None
  {
    seq(COLS, _ => None)
  }

  /** A fresh board: well formed and every cell empty. */
  function EmptyBoard(): (b: Grid)
    ensures WellFormed(b)
    ensures forall r, c :: 0 <= r < ROWS && 0 <= c < COLS ==> b[r][c] == None
  {
    seq(ROWS, _ => EmptyRow())
  }

  // ---------------------------------------------------------------------------
  // Placement check
  // ---------------------------------------------------------------------------

  /** The cells may be occupied by a piece: checked in order, the first cell
      that is off the board or already filled makes the answer false. */
  function IsValid(b: Grid, cells: seq<Cell>): bool
    requires WellFormed(b)
  {
    if cells == [] then true
    else
      var (r, c) := cells[0];
      if r < 0 || r >= ROWS || c < 0 || c >= COLS then false
      else if b[r][c] != None then false
      else IsValid(b, cells[1..])
  }

  /** The cells are valid exactly when every one of them is on the board and
      empty: one cell off the board or filled makes them invalid. */
  lemma {:induction false} ValidIff(b: Grid, cells: seq<Cell>)
    requires WellFormed(b)
    ensures IsValid(b, cells) <==> forall i :: 0 <= i < |cells| ==>
              InBounds(cells[i]) && b[cells[i].0][cells[i].1] == None
  {
    if cells != [] {
      ValidIff(b, cells[1..]);
      assert forall i :: 0 < i < |cells| ==> cells[i] == cells[1..][i - 1];
    }
  }

  /** A piece in a valid position has its anchor row on the board. */
  lemma AnchorRowOnBoard(b: Grid, offsets: seq<Cell>, row: int, col: int)
    requires WellFormed(b) && WellShaped(offsets)
    requires IsValid(b, Translate(offsets, row, col))
    ensures 0 <= row < ROWS
  {
    var cells := Translate(offsets, row, col);
    AnchoredShape(offsets, row, col);
    ValidIff(b, cells);
    assert InBounds(cells[0]);
    var i :| 0 <= i < |cells| && cells[i].0 == row;
    assert InBounds(cells[i]);
  }

  // ---------------------------------------------------------------------------
  // Locking
  // ---------------------------------------------------------------------------

  /** Writes `kind` into one cell if it is on the board; otherwise no change. */
  function Place(b: Grid, cell: Cell, kind: Kind): (nb: Grid)
    requires WellFormed(b)
    ensures WellFormed(nb)
  {
    if InBounds(cell) then b[cell.0 := b[cell.0][cell.1 := Some(kind)]] else b
  }

  /** The board after writing `kind` into each cell in turn. */
  function Locked(b: Grid, cells: seq<Cell>, kind: Kind): (nb: Grid)
    requires WellFormed(b)
    ensures WellFormed(nb)
    decreases |cells|
  {
    if cells == [] then b
    else Place(Locked(b, cells[..|cells| - 1], kind), cells[|cells| - 1], kind)
  }

  /** Exactly the on-board cells of the list hold `kind` after locking;
      every other cell is as before. */
  lemma {:induction false} LockedCells(b: Grid, cells: seq<Cell>, kind: Kind, r: int, c: int)
    requires WellFormed(b) && 0 <= r < ROWS && 0 <= c < COLS
    ensures Locked(b, cells, kind)[r][c] == if (r, c) in cells then Some(kind) else b[r][c]
    decreases |cells|
  {
    if cells != [] {
      var front := cells[..|cells| - 1];
      assert cells == front + [cells[|cells| - 1]];
      LockedCells(b, front, kind, r, c);
    }
  }

  /** Writes the piece's kind into each of its cells that lies on the board. */
  method LockPiece(board: Grid, piece: Piece) returns (nb: Grid)
    requires WellFormed(board) && piece.Valid()
    ensures nb == Locked(board, piece.Cells(), piece.kind)
  {
    var cells := piece.Cells();
    nb := board;
    for i := 0 to |cells|
      invariant nb == Locked(board, cells[..i], piece.kind)
    {
      var (r, c) := cells[i];
      if 0 <= r < ROWS && 0 <= c < COLS {
        nb := nb[r := nb[r][c := Some(piece.kind)]];
      }
      assert cells[..i + 1][..i] == cells[..i];
    }
    assert cells[..|cells|] == cells;
  }

  // ---------------------------------------------------------------------------
  // Line clearing
  // ---------------------------------------------------------------------------

  /** Every cell of the row is filled. */
  predicate Full(row: Row) {
    forall c :: 0 <= c < |row| ==> row[c] != None
  }

  predicate NoFullRows(b: Grid) {
    forall r :: 0 <= r < |b| ==> !Full(b[r])
  }

  /** The number of full rows. */
  function CountFull(b: Grid): (n: nat)
    ensures n <= |b|
  {
    if b == [] then 0 else (if Full(b[0]) then 1 else 0) + CountFull(b[1..])
  }

  /** The rows that are not full, top to bottom in their original order. */
  function NonFull(b: Grid): (kept: Grid)
    ensures |kept| + CountFull(b) == |b|
  {
    if b == [] then []
    else (if Full(b[0]) then [] else [b[0]]) + NonFull(b[1..])
  }

  /** The surviving rows are rows of the board, and none of them is full. */
  lemma {:induction false} NonFullRows(b: Grid)
    ensures forall i :: 0 <= i < |NonFull(b)| ==> !Full(NonFull(b)[i]) && NonFull(b)[i] in b
    decreases |b|
  {
    if b != [] {
      NonFullRows(b[1..]);
      var head := if Full(b[0]) then [] else [b[0]];
      forall i | 0 <= i < |NonFull(b)| ensures !Full(NonFull(b)[i]) && NonFull(b)[i] in b {
        if i >= |head| {
          assert NonFull(b)[i] == NonFull(b[1..])[i - |head|];
          assert NonFull(b)[i] in b[1..];
        }
      }
    }
  }

  function EmptyRows(n: nat): (rows: Grid)
    ensures |rows| == n
    ensures forall i :: 0 <= i < n ==> rows[i] == EmptyRow()
  {
    seq(n, _ => EmptyRow())
  }

  /** The board after line clearing: one empty row on top for each full row
      removed, then the surviving rows. A well-formed board stays well
      formed and is left with no full row. */
  function ClearFull(b: Grid): (nb: Grid)
    ensures |nb| == |b|
    ensures WellFormed(b) ==> WellFormed(nb) && NoFullRows(nb)
  {
    assert !Full(EmptyRow()) by { assert EmptyRow()[0] == None; }
    NonFullRows(b);
    EmptyRows(CountFull(b)) + NonFull(b)
  }

  /** After a clear the top rows, one for each full row removed, are empty,
      and the surviving rows follow them. */
  lemma ClearFullLayout(b: Grid)
    ensures forall r :: 0 <= r < CountFull(b) ==> ClearFull(b)[r] == EmptyRow()
    ensures ClearFull(b)[CountFull(b)..] == NonFull(b)
  {
    var n := CountFull(b);
    assert ClearFull(b) == EmptyRows(n) + NonFull(b);
  }

  /** Scans from the bottom row up; a full row is deleted and an empty row
      inserted on top, and the same index is examined again, since the rows
      above have moved down into it. Returns the number of rows removed. */
  method ClearLines(board: Grid) returns (nb: Grid, cleared: nat)
    requires |board| == ROWS
    ensures cleared == CountFull(board)
    ensures nb == ClearFull(board)
  {
    assert !Full(EmptyRow()) by { assert EmptyRow()[0] == None; }
    nb := board;
    cleared := 0;
    var r := ROWS - 1;
    ghost var u := ROWS;
    while r >= 0
      invariant -1 <= r < ROWS && cleared <= ROWS && u <= ROWS
      invariant u == if r + 1 >= cleared then r + 1 - cleared else 0
      invariant nb == EmptyRows(cleared) + board[..u] + NonFull(board[u..])
      invariant cleared == CountFull(board[u..])
      decreases r + 1 + ROWS - cleared
    {
      if r >= cleared {
        ScanStep(board, cleared, u);
      } else {
        assert nb[r] == EmptyRows(cleared)[r];
      }
      if Full(nb[r]) {
        nb := nb[..r] + nb[r + 1..];
        nb := [EmptyRow()] + nb;
        cleared := cleared + 1;
        u := u - 1;
      } else {
        if r >= cleared {
          u := u - 1;
        }
        r := r - 1;
      }
    }
    assert board[0..] == board;
  }

  /** One step of the ClearLines scan at row `c + u - 1` of a board laid out
      as `c` empty rows, the `u` rows not yet scanned, and the survivors of
      the rows already scanned. */
  lemma ScanStep(board: Grid, c: nat, u: nat)
    requires 1 <= u <= |board|
    ensures var nb := EmptyRows(c) + board[..u] + NonFull(board[u..]);
      && c + u - 1 < |nb| && nb[c + u - 1] == board[u - 1]
      && (Full(board[u - 1]) ==>
            && [EmptyRow()] + (nb[..c + u - 1] + nb[c + u..])
               == EmptyRows(c + 1) + board[..u - 1] + NonFull(board[u - 1..])
            && CountFull(board[u - 1..]) == CountFull(board[u..]) + 1)
      && (!Full(board[u - 1]) ==>
            && nb == EmptyRows(c) + board[..u - 1] + NonFull(board[u - 1..])
            && CountFull(board[u - 1..]) == CountFull(board[u..]))
  {
    var nb := EmptyRows(c) + board[..u] + NonFull(board[u..]);
    assert board[u - 1..][1..] == board[u..];
    assert board[..u] == board[..u - 1] + [board[u - 1]];
    if Full(board[u - 1]) {
      assert nb[..c + u - 1] == EmptyRows(c) + board[..u - 1];
      assert nb[c + u..] == NonFull(board[u..]);
      assert [EmptyRow()] + EmptyRows(c) == EmptyRows(c + 1);
    }
  }

  /** Clearing keeps the order of the rows: the survivors of a board split
      in two are the survivors of the upper part followed by those of the
      lower part. */
  lemma {:induction false} NonFullAppend(upper: Grid, lower: Grid)
    ensures NonFull(upper + lower) == NonFull(upper) + NonFull(lower)
    decreases |upper|
  {
    if upper == [] {
      assert upper + lower == lower;
    } else {
      assert (upper + lower)[0] == upper[0];
      assert (upper + lower)[1..] == upper[1..] + lower;
      NonFullAppend(upper[1..], lower);
    }
  }

  /** A row survives a clear exactly when it is not full, and then it comes
      after the survivors above it and before those below it. */
  lemma NonFullAround(upper: Grid, row: Row, lower: Grid)
    ensures !Full(row) ==> NonFull(upper + [row] + lower) == NonFull(upper) + [row] + NonFull(lower)
    ensures Full(row) ==> NonFull(upper + [row] + lower) == NonFull(upper) + NonFull(lower)
  {
    var tail := [row] + lower;
    assert tail[0] == row && tail[1..] == lower;
    assert upper + [row] + lower == upper + tail;
    NonFullAppend(upper, tail);
  }

  /** On a board with no full row, clearing removes nothing. */
  lemma {:induction false} ClearNothing(b: Grid)
    requires NoFullRows(b)
    ensures CountFull(b) == 0 && NonFull(b) == b && ClearFull(b) == b
  {
    if b != [] {
      ClearNothing(b[1..]);
    }
  }

  /** Clearing twice is the same as clearing once. */
  lemma ClearIdempotent(b: Grid)
    requires WellFormed(b)
    ensures ClearFull(ClearFull(b)) == ClearFull(b)
  {
    ClearNothing(ClearFull(b));
  }

  /** Replacing one row adds at most one full row. */
  lemma {:induction false} CountFullUpdate(b: Grid, r: int, row: Row)
    requires 0 <= r < |b|
    ensures CountFull(b[r := row]) <= CountFull(b) + 1
  {
    if r > 0 {
      assert b[r := row][1..] == b[1..][r - 1 := row];
      CountFullUpdate(b[1..], r - 1, row);
    } else {
      assert b[r := row][1..] == b[1..];
    }
  }

  /** Locking `cells` into a board without full rows creates at most one full
      row per cell, so a four-cell piece clears at most four lines. */
  lemma {:induction false} LockedFullRows(b: Grid, cells: seq<Cell>, kind: Kind)
    requires WellFormed(b) && NoFullRows(b)
    ensures CountFull(Locked(b, cells, kind)) <= |cells|
    decreases |cells|
  {
    if cells == [] {
      ClearNothing(b);
    } else {
      var front := cells[..|cells| - 1];
      var last := cells[|cells| - 1];
      LockedFullRows(b, front, kind);
      var g := Locked(b, front, kind);
      assert Locked(b, cells, kind) == Place(g, last, kind);
      if InBounds(last) {
        CountFullUpdate(g, last.0, g[last.0][last.1 := Some(kind)]);
      }
    }
  }
}
