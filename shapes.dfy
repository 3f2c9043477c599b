// The shape catalog, the board dimensions and the scoring rules of the
// falling-block game: static data and the pure arithmetic on levels.

module Wrappers {
  /** The empty-or-occupied value of a board cell (Python's `None` or a kind). */
  datatype Option<+T> = None | Some(value: T)
}

module Shapes {
  /** The seven tetromino kinds, in the catalog's declaration order. */
  datatype Kind = I | O | T | S | Z | J | L

  /** A (row, column) pair: an offset inside a shape, or an absolute board position. */
  type Cell = (int, int)

  const ROWS: nat := 20
  const COLS: nat := 10

  /** A new piece is anchored on the top row, left of the centre column. */
  const SpawnRow: int := 0
  const SpawnCol: int := COLS / 2 - 1

  /** Every kind once, in the order the catalog lists them. */
  const AllKinds: seq<Kind> := [I, O, T, S, Z, J, L]

  /** A rotation state: four distinct offsets, none above the anchor row and
      at least one on it. */
  predicate WellShaped(offsets: seq<Cell>) {
    && |offsets| == 4
    && (forall i, j :: 0 <= i < j < |offsets| ==> offsets[i] != offsets[j])
    && (forall i :: 0 <= i < |offsets| ==> offsets[i].0 >= 0)
    && (exists i :: 0 <= i < |offsets| && offsets[i].0 == 0)
  }

  /** The rotation states of a kind, in rotation order. O has one state,
      I, S and Z have two, T, J and L have four. */
  function Rotations(k: Kind): (rots: seq<seq<Cell>>)
    ensures |rots| == 1 <==> k == O
    ensures |rots| == 2 <==> k in {I, S, Z}
    ensures |rots| == 4 <==> k in {T, J, L}
  {
    match k
    case I => [[(0, 0), (0, 1), (0, 2), (0, 3)],
               [(0, 0), (1, 0), (2, 0), (3, 0)]]
    case O => [[(0, 0), (0, 1), (1, 0), (1, 1)]]
    case T => [[(0, 0), (0, 1), (0, 2), (1, 1)],
               [(0, 0), (1, 0), (2, 0), (1, 1)],
               [(1, 0), (1, 1), (1, 2), (0, 1)],
               [(0, 0), (1, 0), (2, 0), (1, -1)]]
    case S => [[(0, 1), (0, 2), (1, 0), (1, 1)],
               [(0, 0), (1, 0), (1, 1), (2, 1)]]
    case Z => [[(0, 0), (0, 1), (1, 1), (1, 2)],
               [(0, 1), (1, 0), (1, 1), (2, 0)]]
    case J => [[(0, 0), (1, 0), (1, 1), (1, 2)],
               [(0, 0), (0, 1), (1, 0), (2, 0)],
               [(0, 0), (0, 1), (0, 2), (1, 2)],
               [(0, 0), (1, 0), (2, 0), (2, -1)]]
    case L => [[(0, 2), (1, 0), (1, 1), (1, 2)],
               [(0, 0), (1, 0), (2, 0), (2, 1)],
               [(0, 0), (0, 1), (0, 2), (1, 0)],
               [(0, 0), (0, 1), (1, 1), (2, 1)]]
  }

  /** Every rotation state in the catalog is well shaped. */
  lemma RotationsWellShaped(k: Kind, i: int)
    requires 0 <= i < |Rotations(k)|
    ensures WellShaped(Rotations(k)[i])
  {
    FourCells(Rotations(k)[i]);
  }

  /** Four offsets listed explicitly: pairwise distinct, none above the
      anchor row and one on it, make a well-shaped rotation state. */
  lemma FourCells(offsets: seq<Cell>)
    requires |offsets| == 4
    requires offsets[0] != offsets[1] && offsets[0] != offsets[2] && offsets[0] != offsets[3]
    requires offsets[1] != offsets[2] && offsets[1] != offsets[3] && offsets[2] != offsets[3]
    requires offsets[0].0 >= 0 && offsets[1].0 >= 0 && offsets[2].0 >= 0 && offsets[3].0 >= 0
    requires offsets[0].0 == 0 || offsets[3].0 == 0
    ensures WellShaped(offsets)
  {
  }
}

module Scoring {
  /** Points per number of lines cleared at once, before the level multiplier. */
  const LineScores: map<int, int> := map[0 := 0, 1 := 100, 2 := 300, 3 := 500, 4 := 800]

  /** The table lookup with 0 for any count the table lacks; clearing
      lines together is never worth less than clearing them one at a time. */
  function LineScore(cleared: int): (points: nat)
    ensures cleared !in LineScores ==> points == 0
    ensures 0 < cleared <= 4 ==> points >= 100 * cleared
  {
    if cleared in LineScores then LineScores[cleared] else 0
  }

  /** The points for clearing `cleared` lines at once at `level`: the table
      value multiplied by the level. */
  function Award(cleared: int, level: nat): (points: nat)
    ensures cleared !in LineScores ==> points == 0
    ensures level >= 1 ==> points >= LineScore(cleared)
  {
    LineScore(cleared) * level
  }

  /** Clearing more lines at once, up to four, is worth strictly more. */
  lemma MoreLinesScoreMore(fewer: int, more: int)
    requires 0 <= fewer < more <= 4
    ensures LineScore(fewer) < LineScore(more)
  {
  }

  /** A clear is never worth less at a higher level. */
  lemma AwardGrowsWithLevel(cleared: int, lower: nat, higher: nat)
    requires lower <= higher
    ensures Award(cleared, lower) <= Award(cleared, higher)
  {
  }

  /** The level reached after clearing `lines` lines in total: one more
      level every ten lines, starting at 1. */
  function LevelFor(lines: nat): (level: nat)
    ensures level >= 1
    ensures 10 * (level - 1) <= lines < 10 * level
  {
    lines / 10 + 1
  }

  /** Milliseconds between gravity steps: 800 at level 1, 70 less per level,
      never below 100. */
  function Interval(level: int): (ms: int)
    requires level >= 1
    ensures 100 <= ms <= 800
    ensures ms == 100 <==> level >= 11
  {
    if 800 - (level - 1) * 70 > 100 then 800 - (level - 1) * 70 else 100
  }

  /** A higher level never falls slower. */
  lemma IntervalNonIncreasing(lower: int, higher: int)
    requires 1 <= lower <= higher
    ensures Interval(higher) <= Interval(lower)
  {
  }

  /** Worked values: 23 lines give level 3, whose interval is 660 ms, and
      two lines cleared at level 3 score 900. */
  lemma WorkedExamples()
    ensures LevelFor(23) == 3 && Interval(LevelFor(23)) == 660
    ensures Award(2, 3) == 900 && Award(4, 1) == 800
  {
  }
}
