// The game engine: the 7-bag randomizer, the player commands with their
// wall-kick and drop rules, gravity, locking with scoring and levels, and
// the restart. The driver's key dispatch is kept as a thin wrapper.

module Engine {
  import opened Wrappers
  import opened Shapes
  import opened Scoring
  import opened Pieces
  import opened Board

  // ---------------------------------------------------------------------------
  // 7-bag randomizer
  // ---------------------------------------------------------------------------

  /** Every kind occurs in `s`. */
  predicate AllPresent(s: seq<Kind>) {
    forall k: Kind :: k in s
  }

  /** A shuffled bag: seven kinds among which every kind occurs. */
  predicate FullBag(s: seq<Kind>) {
    |s| == 7 && AllPresent(s)
  }

  /** The kinds in catalog order form a full bag. */
  lemma AllKindsFull()
    ensures FullBag(AllKinds)
  {
    forall k: Kind ensures k in AllKinds {
      var i := match k case I => 0 case O => 1 case T => 2 case S => 3 case Z => 4 case J => 5 case L => 6;
      assert AllKinds[i] == k;
    }
  }

  /** Each kind occurs once in the catalog order. */
  lemma OnceInAllKinds(k: Kind)
    ensures multiset(AllKinds)[k] == 1
  {
    assert multiset(AllKinds) == multiset{I, O, T, S, Z, J, L};
  }

  /** A sub-multiset as large as the whole is the whole. */
  lemma SubMultisetEqual(small: multiset<Kind>, big: multiset<Kind>)
    requires small <= big && |small| == |big|
    ensures small == big
  {
    var extra := big - small;
    assert big == small + extra;
    assert |extra| == 0;
  }

  /** A full bag is exactly a permutation of the seven kinds, which is what
      a shuffle of the catalog produces. */
  lemma FullBagIsPermutation(s: seq<Kind>)
    ensures FullBag(s) <==> multiset(s) == multiset(AllKinds)
  {
    var m, all := multiset(s), multiset(AllKinds);
    if FullBag(s) {
      forall k: Kind ensures all[k] <= m[k] {
        OnceInAllKinds(k);
        assert k in s;
      }
      SubMultisetEqual(all, m);
    }
    if m == all {
      forall k: Kind ensures k in s {
        OnceInAllKinds(k);
        assert k in m;
      }
    }
  }

  /** The kinds of `s` from last to first: the order in which popping from
      the end hands them out. */
  function Reverse(s: seq<Kind>): (r: seq<Kind>)
    ensures |r| == |s|
  {
    if s == [] then [] else [s[|s| - 1]] + Reverse(s[..|s| - 1])
  }

  /** Position `i` of the reversal holds position `|s| - 1 - i` of `s`. */
  lemma {:induction false} ReverseIndex(s: seq<Kind>, i: int)
    requires 0 <= i < |s|
    ensures Reverse(s)[i] == s[|s| - 1 - i]
    decreases |s|
  {
    if i > 0 {
      ReverseIndex(s[..|s| - 1], i - 1);
    }
  }

  /** `s` is a succession of full bags. */
  ghost predicate Bags(s: seq<Kind>)
    decreases |s|
  {
    s == [] || (|s| >= 7 && FullBag(s[..7]) && Bags(s[7..]))
  }

  /** The pieces dealt so far, followed by what is left in the bag in the
      order it will be dealt, form a succession of full bags: every refill
      put one shuffled set of the seven kinds in line. */
  ghost predicate BagInvariant(drawn: seq<Kind>, bag: seq<Kind>) {
    Bags(drawn + Reverse(bag))
  }

  /** Appending one more full bag keeps a succession of full bags. */
  lemma {:induction false} BagsAppend(s: seq<Kind>, t: seq<Kind>)
    requires Bags(s) && FullBag(t)
    ensures Bags(s + t)
    decreases |s|
  {
    if s == [] {
      assert s + t == t && t[..7] == t && t[7..] == [];
    } else {
      BagsAppend(s[7..], t);
      assert (s + t)[..7] == s[..7] && (s + t)[7..] == s[7..] + t;
    }
  }

  /** A refill of an empty bag keeps the invariant. */
  lemma RefillKeeps(drawn: seq<Kind>, bag: seq<Kind>)
    requires BagInvariant(drawn, []) && FullBag(bag)
    ensures BagInvariant(drawn, bag)
  {
    var r := Reverse(bag);
    forall k: Kind ensures k in r {
      assert k in bag;
      var i :| 0 <= i < |bag| && bag[i] == k;
      ReverseIndex(bag, |bag| - 1 - i);
    }
    assert drawn + Reverse([]) == drawn;
    BagsAppend(drawn, r);
  }

  /** Taking the last kind of a non-empty bag keeps the invariant: it moves
      from the head of what is still to be dealt to the end of what was
      dealt. */
  lemma DrawKeeps(drawn: seq<Kind>, bag: seq<Kind>)
    requires BagInvariant(drawn, bag) && bag != []
    ensures BagInvariant(drawn + [bag[|bag| - 1]], bag[..|bag| - 1])
  {
    assert (drawn + [bag[|bag| - 1]]) + Reverse(bag[..|bag| - 1]) == drawn + Reverse(bag);
  }

  /** In a succession of full bags no kind is missing from any 13
      consecutive entries: a window of 13 always spans one whole bag. */
  lemma {:induction false} KindWithinThirteen(s: seq<Kind>, p: nat, k: Kind)
    requires Bags(s) && p + 13 <= |s|
    ensures k in s[p..p + 13]
    decreases p
  {
    if p >= 7 {
      KindWithinThirteen(s[7..], p - 7, k);
      assert s[7..][p - 7..p + 6] == s[p..p + 13];
    } else {
      var start := if p == 0 then 0 else 7;
      var bag := if p == 0 then s[..7] else s[7..][..7];
      assert bag == s[start..start + 7];
      assert FullBag(bag) && k in bag;
      var i :| 0 <= i < 7 && bag[i] == k;
      assert s[p..p + 13][start - p + i] == k;
    }
  }

  /** The guarantee for the pieces the game has dealt: every kind turns up
      among any 13 consecutive ones. */
  lemma DealtWithinThirteen(drawn: seq<Kind>, bag: seq<Kind>, p: nat, k: Kind)
    requires BagInvariant(drawn, bag) && p + 13 <= |drawn|
    ensures k in drawn[p..p + 13]
  {
    KindWithinThirteen(drawn + Reverse(bag), p, k);
    assert (drawn + Reverse(bag))[p..p + 13] == drawn[p..p + 13];
  }

  /** In a succession of full bags, the seven entries from any multiple of
      seven on form a full bag. */
  lemma {:induction false} BagsAligned(s: seq<Kind>, p: nat)
    requires Bags(s) && p % 7 == 0 && p + 7 <= |s|
    ensures FullBag(s[p..p + 7])
    decreases p
  {
    if p == 0 {
      assert s[p..p + 7] == s[..7];
    } else {
      var rest := s[7..];
      assert Bags(rest);
      BagsAligned(rest, p - 7);
      assert rest[p - 7..p] == s[p..p + 7];
    }
  }

  /** The guarantee at bag boundaries: the seven pieces dealt from a
      multiple of seven on are the seven kinds, each exactly once. */
  lemma DealtBagAligned(drawn: seq<Kind>, bag: seq<Kind>, p: nat)
    requires BagInvariant(drawn, bag) && p % 7 == 0 && p + 7 <= |drawn|
    ensures multiset(drawn[p..p + 7]) == multiset(AllKinds)
  {
    BagsAligned(drawn + Reverse(bag), p);
    assert (drawn + Reverse(bag))[p..p + 7] == drawn[p..p + 7];
    FullBagIsPermutation(drawn[p..p + 7]);
  }

  // ---------------------------------------------------------------------------
  // Rotation with wall kicks
  // ---------------------------------------------------------------------------

  /** Column offsets tried, in this order, when a plain rotation is blocked. */
  const Kicks: seq<int> := [1, -1, 2, -2]

  /** The cells shifted by kick offset `i` fit on the board. */
  predicate KickFits(b: Grid, cells: seq<Cell>, i: int)
    requires WellFormed(b) && 0 <= i < |Kicks|
  {
    IsValid(b, Translate(cells, 0, Kicks[i]))
  }

  /** The first of the kick offsets from position `i` on whose
      column-shifted cells fit, if any. */
  function KickFrom(b: Grid, cells: seq<Cell>, i: nat): (r: Option<int>)
    requires WellFormed(b)
    ensures r.Some? ==> r.value in Kicks && IsValid(b, Translate(cells, 0, r.value))
    decreases |Kicks| - i
  {
    if i >= |Kicks| then None
    else if KickFits(b, cells, i) then Some(Kicks[i])
    else KickFrom(b, cells, i + 1)
  }

  /** The kick search picks the earliest offset that fits: it answers
      offset `j` exactly when `j` fits and no offset between `i` and `j`
      does, and nothing exactly when no offset from `i` on fits. */
  lemma {:induction false} KickFromFirst(b: Grid, cells: seq<Cell>, i: nat, j: int)
    requires WellFormed(b) && i <= j < |Kicks|
    ensures KickFrom(b, cells, i) == Some(Kicks[j]) <==>
      KickFits(b, cells, j) && forall m :: i <= m < j ==> !KickFits(b, cells, m)
    decreases j - i
  {
    if i < j && !KickFits(b, cells, i) {
      KickFromFirst(b, cells, i + 1, j);
    }
  }

  /** The kick search comes back empty exactly when no offset from `i` on fits. */
  lemma {:induction false} KickFromNone(b: Grid, cells: seq<Cell>, i: nat)
    requires WellFormed(b)
    ensures KickFrom(b, cells, i).None? <==> forall m :: i <= m < |Kicks| ==> !KickFits(b, cells, m)
    decreases |Kicks| - i
  {
    if i < |Kicks| {
      KickFromNone(b, cells, i + 1);
    }
  }

  /** Where a rotation lands: the column offset applied to the rotated cells,
      0 when the plain rotation fits, otherwise the first kick that fits;
      None when the rotation is refused. */
  function WallKick(b: Grid, rotated: seq<Cell>): (r: Option<int>)
    requires WellFormed(b)
    ensures r.Some? ==> IsValid(b, Translate(rotated, 0, r.value))
    ensures r == Some(0) <==> IsValid(b, rotated)
  {
    TranslateZero(rotated);
    if IsValid(b, rotated) then Some(0) else KickFrom(b, rotated, 0)
  }

  // ---------------------------------------------------------------------------
  // Hard drop distance
  // ---------------------------------------------------------------------------

  /** The row at which a piece falling from `row` comes to rest: at or
      below `row`, where the next row down is not a valid position. */
  function Landing(b: Grid, offsets: seq<Cell>, row: int, col: int): (rest: int)
    requires WellFormed(b) && WellShaped(offsets)
    ensures rest >= row
    ensures !IsValid(b, Translate(offsets, rest + 1, col))
    decreases ROWS - row
  {
    var below := Translate(offsets, row + 1, col);
    if IsValid(b, below) then
      AnchorRowOnBoard(b, offsets, row + 1, col);
      Landing(b, offsets, row + 1, col)
    else
      row
  }

  /** From a row on the board, a falling piece comes to rest on the board. */
  lemma {:induction false} LandingOnBoard(b: Grid, offsets: seq<Cell>, row: int, col: int)
    requires WellFormed(b) && WellShaped(offsets) && 0 <= row < ROWS
    ensures Landing(b, offsets, row, col) < ROWS
    decreases ROWS - row
  {
    if IsValid(b, Translate(offsets, row + 1, col)) {
      AnchorRowOnBoard(b, offsets, row + 1, col);
      LandingOnBoard(b, offsets, row + 1, col);
    }
  }

  /** Every row the piece passes through on the way down is a valid position. */
  lemma {:induction false} LandingPath(b: Grid, offsets: seq<Cell>, row: int, col: int, h: int)
    requires WellFormed(b) && WellShaped(offsets) && row < h
    ensures h <= Landing(b, offsets, row, col) ==> IsValid(b, Translate(offsets, h, col))
    decreases ROWS - row
  {
    if IsValid(b, Translate(offsets, row + 1, col)) {
      AnchorRowOnBoard(b, offsets, row + 1, col);
      if h > row + 1 {
        LandingPath(b, offsets, row + 1, col, h);
      }
    }
  }

  /** Conversely, a row below which the piece no longer fits, reached
      through rows that all fit, is the landing row. */
  lemma {:induction false} LandingUnique(b: Grid, offsets: seq<Cell>, row: int, col: int, rest: int)
    requires WellFormed(b) && WellShaped(offsets)
    requires row <= rest
    requires forall h :: row < h <= rest ==> IsValid(b, Translate(offsets, h, col))
    requires !IsValid(b, Translate(offsets, rest + 1, col))
    ensures Landing(b, offsets, row, col) == rest
    decreases rest - row
  {
    if row < rest {
      assert IsValid(b, Translate(offsets, row + 1, col));
      LandingUnique(b, offsets, row + 1, col, rest);
    }
  }

  /** On an empty board an O piece dropped from the spawn position comes to
      rest on the bottom two rows. */
  lemma OLandsAtBottom()
    ensures WellShaped(Rotations(O)[0])
      && Landing(EmptyBoard(), Rotations(O)[0], SpawnRow, SpawnCol) == ROWS - 2
  {
    var b, o := EmptyBoard(), Rotations(O)[0];
    RotationsWellShaped(O, 0);
    forall h | SpawnRow < h <= ROWS - 2 ensures IsValid(b, Translate(o, h, SpawnCol)) {
      ValidIff(b, Translate(o, h, SpawnCol));
      forall i | 0 <= i < 4 ensures Translate(o, h, SpawnCol)[i] == (o[i].0 + h, o[i].1 + SpawnCol) {
        TranslateAt(o, h, SpawnCol, i);
      }
    }
    ValidIff(b, Translate(o, ROWS - 1, SpawnCol));
    TranslateAt(o, ROWS - 1, SpawnCol, 2);
    LandingUnique(b, o, SpawnRow, SpawnCol, ROWS - 2);
  }

  // ---------------------------------------------------------------------------
  // The driver's keys
  // ---------------------------------------------------------------------------

  /** The keys the driver reacts to, and any other key, which it ignores. */
  datatype Key = LeftKey | RightKey | DownKey | UpKey | SpaceKey | PauseKey | RestartKey | OtherKey

  // ---------------------------------------------------------------------------
  // The engine
  // ---------------------------------------------------------------------------

  class Game {
    var board: Grid
    var score: int
    var lines: int
    var level: int
    var bag: seq<Kind>
    var current: Piece
    var next: Piece
    var gameOver: bool
    var paused: bool
    var dropInterval: int
    var dropTimer: int
    /** Every kind the bag has handed out since the game started. */
    ghost var drawn: seq<Kind>

    ghost predicate Valid()
      reads this, current, next
    {
      && WellFormed(board) && NoFullRows(board)
      && current.Valid() && next.Valid() && current != next
      && 0 <= current.row < ROWS
      && next.rotIndex == 0 && next.row == SpawnRow && next.col == SpawnCol
      && score >= 0 && lines >= 0
      && level == LevelFor(lines)
      && dropInterval == Interval(level)
      && BagInvariant(drawn, bag)
    }

    /** The state of a freshly started game: the current and the next piece
        are the first two draws of one shuffle, the rest of which is left in
        the bag. */
    ghost predicate Initial()
      reads this, current, next
    {
      && board == EmptyBoard()
      && score == 0 && lines == 0 && level == 1
      && dropInterval == 800 && dropTimer == 0
      && !gameOver && !paused
      && current.rotIndex == 0 && current.row == SpawnRow && current.col == SpawnCol
      && |drawn| == 2 && drawn == [current.kind, next.kind]
      && FullBag(bag + [next.kind, current.kind])
    }

    /** The effect of locking `cells` of `kind` and clearing lines, with
        `bonus` drop points earned beforehand in the same command: the board
        is the cleared locked board, the line count and the score grow by the
        lines cleared (at most four, scored at the level before the update),
        level and interval follow the new line count, the queued piece is
        promoted, and the game is over once it does not fit. */
    twostate predicate LockedAndCleared(new cells: seq<Cell>, kind: Kind, bonus: int)
      reads this, current
    {
      && old(WellFormed(board))
      && var locked := Locked(old(board), cells, kind);
         var n := CountFull(locked);
         && n <= 4
         && board == ClearFull(locked)
         && lines == old(lines) + n
         && old(level) >= 0 && score == old(score) + bonus + Award(n, old(level))
         && lines >= 0 && level == LevelFor(lines)
         && dropInterval == Interval(level)
         && current == old(next)
         && current.Valid()
         && fresh(next) && Dealt(next.kind)
         && gameOver == (old(gameOver) || !IsValid(board, current.Cells()))
         && paused == old(paused)
    }

    /** `kind` is the kind the bag handed out last: an empty bag was refilled
        with a full bag and its last kind taken, otherwise the bag's last
        kind was popped; either way it is recorded as dealt. */
    twostate predicate Dealt(kind: Kind)
      reads this
    {
      && drawn == old(drawn) + [kind]
      && (old(bag) != [] ==> kind == old(bag)[|old(bag)| - 1] && bag == old(bag)[..|old(bag)| - 1])
      && (old(bag) == [] ==> FullBag(bag + [kind]))
    }

    /** What a command that does not lock leaves alone: the board, the line
        count, level and interval, the bag, the queued piece and the
        game-over flag, and which piece is current. */
    twostate predicate Steady()
      reads this
    {
      && current == old(current) && next == old(next)
      && board == old(board) && lines == old(lines) && level == old(level)
      && dropInterval == old(dropInterval)
      && bag == old(bag) && drawn == old(drawn) && gameOver == old(gameOver)
    }

    /** The effect of `move(dr, dc)` on the current piece: it is shifted by
        (dr, dc) when the shifted cells are valid, and stays put otherwise;
        its rotation is kept. */
    twostate predicate Shifted(dr: int, dc: int)
      requires old(Valid())
      reads this, current
    {
      && current == old(current) && current.rotIndex == old(current.rotIndex)
      && if IsValid(old(board), Translate(old(current.Cells()), dr, dc)) then
           current.row == old(current.row) + dr && current.col == old(current.col) + dc
         else
           current.row == old(current.row) && current.col == old(current.col)
    }

    /** The effect of `rotate(direction)` on the current piece: the rotation
        is committed with the wall kick's offset, or not at all when no
        offset fits; the row is kept. */
    twostate predicate Turned(direction: int)
      requires old(Valid())
      reads this, current
    {
      && current == old(current) && current.row == old(current.row)
      && match WallKick(old(board), old(current.RotatedCells(direction)))
         case Some(offset) =>
           && current.rotIndex == NextRotation(old(current.rotIndex), direction, |current.rotations|)
           && current.col == old(current.col) + offset
         case None =>
           current.rotIndex == old(current.rotIndex) && current.col == old(current.col)
    }

    /** The effect of a soft drop: one row down and 1 point when that row
        fits, nothing otherwise; nothing else changes. */
    twostate predicate SoftDropped()
      requires old(Valid())
      reads this, current
    {
      && Steady() && paused == old(paused) && dropTimer == old(dropTimer)
      && Shifted(1, 0)
      && score == old(score) + (if IsValid(old(board), Translate(old(current.Cells()), 1, 0)) then 1 else 0)
    }

    /** The effect of a hard drop: the piece falls fewer than ROWS rows,
        through rows that all fit, to the row below which it does not fit,
        earning 2 points per row; it is then locked and cleared. The drop
        timer is kept. `dropped` is the piece that was current. */
    twostate predicate HardDropped(dropped: Piece)
      requires old(Valid()) && dropped == old(current)
      reads this, current, dropped
    {
      && dropTimer == old(dropTimer)
      && var offsets, row0, col := old(current.rotations[current.rotIndex]), old(current.row), old(current.col);
         var rest := dropped.row;
         && row0 <= rest < ROWS && dropped.col == col
         && (forall h :: row0 < h <= rest ==> IsValid(old(board), Translate(offsets, h, col)))
         && !IsValid(old(board), Translate(offsets, rest + 1, col))
         && LockedAndCleared(Translate(offsets, rest, col), old(current.kind), 2 * (rest - row0))
    }

    /** A new game. */
    constructor ()
      ensures Valid() && Initial()
      ensures fresh(current) && fresh(next)
    {
      // Both pieces are replaced by the first two draws of Restart.
      board := EmptyBoard();
      bag := [];
      current := new Piece(I);
      next := new Piece(I);
      new;
      Restart();
    }

    /** Reinitialises every field: empty board, counters reset, an empty bag
        from which the current and the next piece are drawn. */
    method Restart()
      modifies this
      ensures Valid() && Initial()
      ensures fresh(current) && fresh(next)
    {
      board, score, lines, level, bag, drawn := EmptyBoard(), 0, 0, 1, [], [];
      gameOver, paused, dropInterval, dropTimer := false, false, Interval(level), 0;
      assert NoFullRows(board) by { assert EmptyRow()[0] == None; }
      assert BagInvariant(drawn, bag) by { assert drawn + Reverse(bag) == []; }
      current := NewPiece();
      ghost var shuffled := bag + [current.kind];
      assert FullBag(shuffled) && |bag| == 6;
      next := NewPiece();
      assert bag + [next.kind] == shuffled[..6];
      assert bag + [next.kind, current.kind] == shuffled;
    }

    /** Fills the bag with the seven kinds in an arbitrary order (the shuffle). */
    method RefillBag()
      modifies this`bag
      ensures FullBag(bag)
    {
      AllKindsFull();
      var shuffled :| FullBag(shuffled);
      bag := shuffled;
    }

    /** Takes the last kind from the bag, refilling an empty bag first, and
        returns a new piece of that kind at the spawn position. */
    method NewPiece() returns (p: Piece)
      requires BagInvariant(drawn, bag)
      modifies this`bag, this`drawn
      ensures BagInvariant(drawn, bag)
      ensures fresh(p) && p.Valid()
      ensures p.rotIndex == 0 && p.row == SpawnRow && p.col == SpawnCol
      ensures Dealt(p.kind)
    {
      if bag == [] {
        RefillBag();
        RefillKeeps(drawn, bag);
      }
      assert bag == bag[..|bag| - 1] + [bag[|bag| - 1]];
      DrawKeeps(drawn, bag);
      var kind := bag[|bag| - 1];
      bag := bag[..|bag| - 1];
      drawn := drawn + [kind];
      p := new Piece(kind);
    }

    /** Promotes the queued piece and draws a new one; the game is over if
        the promoted piece does not fit where it spawns. */
    method SpawnNext()
      requires Valid()
      modifies this`current, this`next, this`bag, this`drawn, this`gameOver
      ensures Valid()
      ensures current == old(next) && fresh(next) && Dealt(next.kind)
      ensures gameOver == (old(gameOver) || !IsValid(board, current.Cells()))
    {
      current := next;
      next := NewPiece();
      if !IsValid(board, current.Cells()) {
        gameOver := true;
      }
    }

    /** Shifts the current piece by (dr, dc) when the shifted cells are valid
        and reports whether it moved; otherwise nothing changes. */
    method Move(dr: int, dc: int) returns (moved: bool)
      requires Valid()
      modifies current`row, current`col
      ensures Valid()
      ensures Shifted(dr, dc)
      ensures moved == IsValid(board, Translate(old(current.Cells()), dr, dc))
      ensures moved ==> IsValid(board, current.Cells())
    {
      ghost var offsets, row, col := current.rotations[current.rotIndex], current.row, current.col;
      var newCells := Translate(current.Cells(), dr, dc);
      moved := IsValid(board, newCells);
      if moved {
        MoveAnchor(offsets, row, col, dr, dc, row + dr, col + dc);
        WellShapedAt(current.rotations, current.rotIndex);
        AnchorRowOnBoard(board, offsets, row + dr, col + dc);
        current.row := current.row + dr;
        current.col := current.col + dc;
      }
    }

    /** Rotates by `direction` if the rotated cells fit; otherwise tries the
        rotated cells shifted by each kick offset in turn and commits the
        first that fits; if none fits the piece stays as it was. */
    method Rotate(direction: int)
      requires Valid()
      modifies current`rotIndex, current`col
      ensures Valid()
      ensures Turned(direction)
      ensures WallKick(board, old(current.RotatedCells(direction))).Some? ==> IsValid(board, current.Cells())
    {
      ghost var rot, row, col := current.rotIndex, current.row, current.col;
      var newCells := current.RotatedCells(direction);
      ghost var offsets := current.rotations[NextRotation(rot, direction, |current.rotations|)];
      if IsValid(board, newCells) {
        current.Rotate(direction);
        return;
      }
      for i := 0 to |Kicks|
        invariant current.rotIndex == rot && current.col == col
        invariant KickFrom(board, newCells, i) == WallKick(board, newCells)
      {
        var offset := Kicks[i];
        var kicked := Translate(newCells, 0, offset);
        if IsValid(board, kicked) {
          MoveAnchor(offsets, row, col, 0, offset, row, col + offset);
          current.Rotate(direction);
          current.col := current.col + offset;
          return;
        }
      }
    }

    /** Moves the piece one row down, scoring 1 point if it moved. */
    method SoftDrop() returns (moved: bool)
      requires Valid()
      modifies this`score, current`row, current`col
      ensures Valid()
      ensures SoftDropped()
      ensures moved == IsValid(board, Translate(old(current.Cells()), 1, 0))
    {
      moved := Move(1, 0);
      if moved {
        score := score + 1;
      }
    }

    /** The fall of a hard drop: moves the piece down while it fits, 2
        points per row. Every row it passes fits, and it comes to rest
        where one more row down does not. */
    method DropToRest()
      requires Valid()
      modifies this`score, current`row, current`col
      ensures Valid()
      ensures current.col == old(current.col) && old(current.row) <= current.row
      ensures forall h :: old(current.row) < h <= current.row ==>
        IsValid(board, Translate(current.rotations[current.rotIndex], h, current.col))
      ensures !IsValid(board, Translate(current.Cells(), 1, 0))
      ensures score == old(score) + 2 * (current.row - old(current.row))
    {
      ghost var offsets, row0, col := current.rotations[current.rotIndex], current.row, current.col;
      while true
        invariant Valid() && current.col == col && row0 <= current.row
        invariant forall h :: row0 < h <= current.row ==> IsValid(board, Translate(offsets, h, col))
        invariant score == old(score) + 2 * (current.row - row0)
        decreases ROWS - current.row
      {
        ghost var r := current.row;
        MoveAnchor(offsets, r, col, 1, 0, r + 1, col);
        var moved := Move(1, 0);
        if !moved {
          return;
        }
        score := score + 2;
      }
    }

    /** Drops the piece as far as it falls, 2 points per row, then locks it:
        it comes to rest at the first row below which it no longer fits,
        fewer than ROWS rows down. */
    method HardDrop()
      requires Valid()
      modifies this, current
      ensures Valid()
      ensures HardDropped(old(current))
    {
      ghost var dropped, offsets, col := current, current.rotations[current.rotIndex], current.col;
      DropToRest();
      MoveAnchor(offsets, current.row, col, 1, 0, current.row + 1, col);
      ghost var cells := current.Cells();
      assert cells == Translate(offsets, dropped.row, col);
      LockAndClear();
    }

    /** Locks the current piece, clears full lines, scores them at the
        current level, updates level and interval, and spawns the next piece. */
    method LockAndClear()
      requires Valid()
      modifies this
      ensures Valid()
      ensures LockedAndCleared(old(current.Cells()), old(current.kind), 0)
      ensures dropTimer == old(dropTimer)
    {
      var cleared := LockBoard();
      AddLines(cleared);
      SpawnNext();
    }

    /** The bookkeeping of a clear: the line count grows by `cleared`, the
        score by the table value times the level before the update, and
        level and interval follow the new line count. */
    method AddLines(cleared: nat)
      requires Valid()
      modifies this`lines, this`score, this`level, this`dropInterval
      ensures Valid()
      ensures lines == old(lines) + cleared
      ensures score == old(score) + Award(cleared, old(level))
      ensures level == LevelFor(lines) && dropInterval == Interval(level)
    {
      lines := lines + cleared;
      score := score + Award(cleared, level);
      level := LevelFor(lines);
      dropInterval := Interval(level);
    }

    /** The board half of locking: writes the current piece into the board,
        clears the full rows and returns how many there were. */
    method LockBoard() returns (cleared: nat)
      requires Valid()
      modifies this`board
      ensures Valid()
      ensures var locked := Locked(old(board), current.Cells(), current.kind);
        board == ClearFull(locked) && cleared == CountFull(locked) && cleared <= 4
    {
      LockedFullRows(board, current.Cells(), current.kind);
      var locked := LockPiece(board, current);
      var nb;
      nb, cleared := ClearLines(locked);
      board := nb;
    }

    /** Gravity: nothing happens once the game is over or paused; otherwise
        the elapsed time accumulates and, when it reaches the interval, the
        timer restarts and the piece moves down one row, or is locked if it
        cannot. */
    method Tick(dt: int)
      requires Valid()
      modifies this, current
      ensures Valid()
      ensures old(gameOver || paused) ==> unchanged(this) && unchanged(current)
      ensures !old(gameOver || paused) && old(dropTimer) + dt < old(dropInterval) ==>
        && Steady() && score == old(score) && paused == old(paused) && unchanged(current)
        && dropTimer == old(dropTimer) + dt
      ensures !old(gameOver || paused) && old(dropTimer) + dt >= old(dropInterval) ==>
        && dropTimer == 0
        && if IsValid(old(board), Translate(old(current.Cells()), 1, 0)) then
             Steady() && score == old(score) && paused == old(paused) && Shifted(1, 0)
           else
             LockedAndCleared(old(current.Cells()), old(current.kind), 0)
    {
      if gameOver || paused {
        return;
      }
      dropTimer := dropTimer + dt;
      if dropTimer >= dropInterval {
        dropTimer := 0;
        var moved := Move(1, 0);
        if !moved {
          LockAndClear();
        }
      }
    }

    /** The driver's handling of one key press: restart is always honoured;
        once the game is over every other key is ignored; the pause key
        toggles the pause; while paused the command keys are ignored. */
    method KeyDown(key: Key)
      requires Valid()
      modifies this, current
      ensures Valid()
      ensures key == RestartKey ==> Initial() && fresh(current)
      ensures key != RestartKey && old(gameOver) ==> unchanged(this) && unchanged(current)
      ensures key == PauseKey && !old(gameOver) ==>
        && paused == !old(paused)
        && Steady() && score == old(score) && dropTimer == old(dropTimer) && unchanged(current)
      ensures key !in {RestartKey, PauseKey} && old(paused) ==> unchanged(this) && unchanged(current)
      ensures key == OtherKey ==> unchanged(this) && unchanged(current)
      ensures !old(gameOver) && !old(paused) ==> match key
        case LeftKey => unchanged(this) && Shifted(0, -1)
        case RightKey => unchanged(this) && Shifted(0, 1)
        case DownKey => SoftDropped()
        case UpKey => unchanged(this) && Turned(1)
        case SpaceKey => HardDropped(old(current))
        case _ => true
    {
      if key == RestartKey {
        Restart();
        return;
      }
      if gameOver {
        return;
      }
      if key == PauseKey {
        paused := !paused;
        return;
      }
      if paused {
        return;
      }
      match key
      case LeftKey => var _ := Move(0, -1);
      case RightKey => var _ := Move(0, 1);
      case DownKey => var _ := SoftDrop();
      case UpKey => Rotate(1);
      case SpaceKey => HardDrop();
      case OtherKey =>
    }
  }
}
