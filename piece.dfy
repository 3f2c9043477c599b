// A falling piece: its kind, rotation state and anchor, and the absolute
// cells it covers.

module Pieces {
  import opened Shapes

  /** The rotation index reached from `rot` after `direction` steps, wrapped
      into [0, count). For a positive modulus Python's `%` and Dafny's `%`
      agree, so negative directions wrap the same way. */
  function NextRotation(rot: int, direction: int, count: nat): (r: nat)
    requires count > 0
    ensures r < count
  {
    (rot + direction) % count
  }

  /** `x % n == m` for any `x` that is `m` plus a multiple of `n`. */
  lemma ModUnique(x: int, n: int, q: int, m: int)
    requires n > 0 && 0 <= m < n && x == q * n + m
    ensures x % n == m
  {
    var d := x / n - q;
    assert d * n == m - x % n;
  }

  /** Rotating back by the same number of steps restores the rotation index. */
  lemma RotateBack(rot: int, direction: int, count: nat)
    requires count > 0 && 0 <= rot < count
    ensures NextRotation(NextRotation(rot, direction, count), -direction, count) == rot
  {
    var q := (rot + direction) / count;
    ModUnique(rot - q * count, count, -q, rot);
  }

  /** Two rotations in a row are one rotation by the summed directions. */
  lemma Compose(rot: int, a: int, b: int, count: nat)
    requires count > 0
    ensures NextRotation(NextRotation(rot, a, count), b, count) == NextRotation(rot, a + b, count)
  {
    var q := (rot + a) / count;
    ModUnique(rot + a + b - q * count, count, (rot + a + b) / count - q, (rot + a + b) % count);
  }

  /** The rotation index after `k` single-step rotations from `rot`. */
  function Steps(rot: int, k: nat, count: nat): (r: int)
    requires count > 0
    ensures k > 0 ==> 0 <= r < count
  {
    if k == 0 then rot else NextRotation(Steps(rot, k - 1, count), 1, count)
  }

  /** `k` single steps are one rotation by `k`. */
  lemma {:induction false} StepsAreOneRotation(rot: int, k: nat, count: nat)
    requires count > 0 && k > 0
    ensures Steps(rot, k, count) == NextRotation(rot, k, count)
  {
    if k > 1 {
      StepsAreOneRotation(rot, k - 1, count);
      Compose(rot, k - 1, 1, count);
    }
  }

  /** Rotating a full turn in single steps returns to the start. */
  lemma FullTurn(rot: int, count: nat)
    requires count > 0 && 0 <= rot < count
    ensures Steps(rot, count, count) == rot
  {
    StepsAreOneRotation(rot, count, count);
    ModUnique(rot + count, count, 1, rot);
  }

  /** Every cell shifted by (dr, dc), in order. */
  function Translate(cells: seq<Cell>, dr: int, dc: int): (moved: seq<Cell>)
    ensures |moved| == |cells|
  {
    if cells == [] then [] else [(cells[0].0 + dr, cells[0].1 + dc)] + Translate(cells[1..], dr, dc)
  }

  /** Position `i` of the shifted cells is cell `i` shifted. */
  lemma {:induction false} TranslateAt(cells: seq<Cell>, dr: int, dc: int, i: int)
    requires 0 <= i < |cells|
    ensures Translate(cells, dr, dc)[i] == (cells[i].0 + dr, cells[i].1 + dc)
    decreases |cells|
  {
    if i > 0 {
      TranslateAt(cells[1..], dr, dc, i - 1);
    }
  }

  /** Shifting by nothing leaves the cells as they are. */
  lemma {:induction false} TranslateZero(cells: seq<Cell>)
    ensures Translate(cells, 0, 0) == cells
    decreases |cells|
  {
    if cells != [] {
      TranslateZero(cells[1..]);
    }
  }

  /** Shifting back by the opposite amounts restores the cells. */
  lemma {:induction false} TranslateBack(cells: seq<Cell>, dr: int, dc: int)
    ensures Translate(Translate(cells, dr, dc), -dr, -dc) == cells
    decreases |cells|
  {
    if cells != [] {
      var moved := Translate(cells, dr, dc);
      assert moved[1..] == Translate(cells[1..], dr, dc);
      TranslateBack(cells[1..], dr, dc);
    }
  }

  /** Two shifts in a row are one shift by the sums. */
  lemma {:induction false} TranslateTwice(cells: seq<Cell>, dr1: int, dc1: int, dr2: int, dc2: int)
    ensures Translate(Translate(cells, dr1, dc1), dr2, dc2) == Translate(cells, dr1 + dr2, dc1 + dc2)
    decreases |cells|
  {
    if cells != [] {
      var moved := Translate(cells, dr1, dc1);
      assert moved[1..] == Translate(cells[1..], dr1, dc1);
      TranslateTwice(cells[1..], dr1, dc1, dr2, dc2);
    }
  }

  /** Moving the anchor of a piece from (row, col) to (newRow, newCol) by
      (dr, dc) moves each of its cells by (dr, dc). */
  lemma MoveAnchor(offsets: seq<Cell>, row: int, col: int, dr: int, dc: int, newRow: int, newCol: int)
    requires newRow == row + dr && newCol == col + dc
    ensures Translate(offsets, newRow, newCol) == Translate(Translate(offsets, row, col), dr, dc)
  {
    TranslateTwice(offsets, row, col, dr, dc);
  }

  /** Every entry of the shifted cells is its offset shifted by the anchor. */
  lemma TranslateEach(offsets: seq<Cell>, row: int, col: int)
    ensures var cells := Translate(offsets, row, col);
      forall i :: 0 <= i < |offsets| ==> cells[i] == (offsets[i].0 + row, offsets[i].1 + col)
  {
    forall i | 0 <= i < |offsets| {
      TranslateAt(offsets, row, col, i);
    }
  }

  /** A piece whose rotation state is well shaped covers four distinct
      cells, none above its anchor row and at least one on it. */
  lemma AnchoredShape(offsets: seq<Cell>, row: int, col: int)
    requires WellShaped(offsets)
    ensures var cells := Translate(offsets, row, col);
      && |cells| == 4
      && (forall i :: 0 <= i < |cells| ==> cells[i].0 >= row)
      && (exists i :: 0 <= i < |cells| && cells[i].0 == row)
      && (forall i, j :: 0 <= i < j < |cells| ==> cells[i] != cells[j])
  {
    TranslateEach(offsets, row, col);
  }

  /** Every rotation state in the table is well shaped, stated state by
      state from the first; WellShapedAt picks out one state. */
  ghost predicate AllWellShaped(rotations: seq<seq<Cell>>)
    decreases |rotations|
  {
    rotations == [] || (WellShaped(rotations[0]) && AllWellShaped(rotations[1..]))
  }

  lemma {:induction false} WellShapedAt(rotations: seq<seq<Cell>>, i: int)
    requires AllWellShaped(rotations) && 0 <= i < |rotations|
    ensures WellShaped(rotations[i])
    decreases i
  {
    if i > 0 {
      WellShapedAt(rotations[1..], i - 1);
    }
  }

  lemma {:induction false} AllWellShapedFrom(rotations: seq<seq<Cell>>)
    requires forall i :: 0 <= i < |rotations| ==> WellShaped(rotations[i])
    ensures AllWellShaped(rotations)
    decreases |rotations|
  {
    if rotations != [] {
      assert forall i :: 0 <= i < |rotations[1..]| ==> rotations[1..][i] == rotations[i + 1];
      AllWellShapedFrom(rotations[1..]);
    }
  }

  class Piece {
    const kind: Kind
    /** The kind's rotation states, taken from the catalog when the piece is made. */
    const rotations: seq<seq<Cell>>
    var rotIndex: int
    var row: int
    var col: int

    ghost predicate Valid()
      reads this
    {
      0 <= rotIndex < |rotations| && AllWellShaped(rotations)
    }

    /** A new piece of `kind`: its rotation states from the catalog,
        rotation 0, anchored at the spawn position. */
    constructor (kind: Kind)
      ensures Valid()
      ensures this.kind == kind && rotations == Rotations(kind) && rotIndex == 0
      ensures row == SpawnRow && col == SpawnCol
    {
      this.kind := kind;
      rotations := Rotations(kind);
      rotIndex := 0;
      row := SpawnRow;
      col := SpawnCol;
      new;
      forall i | 0 <= i < |rotations| ensures WellShaped(rotations[i]) {
        RotationsWellShaped(kind, i);
      }
      AllWellShapedFrom(rotations);
    }

    /** The absolute cells the piece covers: each offset of the current
        rotation state moved to the anchor (see TranslateEach). */
    function Cells(): (cells: seq<Cell>)
      reads this
      requires Valid()
      ensures |cells| == 4
    {
      WellShapedAt(rotations, rotIndex);
      Translate(rotations[rotIndex], row, col)
    }

    /** The cells the piece would cover after rotating by `direction`, without
        rotating it: each offset of the next rotation state moved to the
        unchanged anchor. */
    function RotatedCells(direction: int): (cells: seq<Cell>)
      reads this
      requires Valid()
      ensures var next := rotations[NextRotation(rotIndex, direction, |rotations|)];
        && |next| == 4 && |cells| == 4
        && forall i :: 0 <= i < 4 ==> cells[i] == (next[i].0 + row, next[i].1 + col)
    {
      var next := rotations[NextRotation(rotIndex, direction, |rotations|)];
      WellShapedAt(rotations, NextRotation(rotIndex, direction, |rotations|));
      TranslateEach(next, row, col);
      Translate(next, row, col)
    }

    /** Advances the rotation index by `direction`, wrapping; afterwards the
        piece covers exactly what RotatedCells promised. */
    method Rotate(direction: int)
      requires Valid()
      modifies this`rotIndex
      ensures Valid()
      ensures rotIndex == NextRotation(old(rotIndex), direction, |rotations|)
      ensures Cells() == old(RotatedCells(direction))
      ensures row == old(row) && col == old(col)
    {
      rotIndex := (rotIndex + direction) % |rotations|;
    }
  }
}
