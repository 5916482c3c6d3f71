/** The tables of the Sudoku challenge: the positions that the check visits, and the
    mixing of the grid from which they were generated. */
module SudokuTables {

  /** The entry in column j of a row of nine. */
  function Pick(j: nat, v0: nat, v1: nat, v2: nat, v3: nat, v4: nat, v5: nat, v6: nat, v7: nat, v8: nat): nat {
    if j < 3 then (if j == 0 then v0 else if j == 1 then v1 else v2)
    else if j < 6 then (if j == 3 then v3 else if j == 4 then v4 else v5)
    else (if j == 6 then v6 else if j == 7 then v7 else v8)
  }

  /** Where the check finds cell j of group i: entry 9*i+j of its table of positions. */
  function Pos(i: nat, j: nat): nat {
    match i
    case 0 => Pick(j, 56, 36, 19, 17, 28, 30, 64, 15, 22)
    case 1 => Pick(j, 53, 69, 46, 55, 54, 74, 7, 45, 26)
    case 2 => Pick(j, 52, 70, 11, 47, 8, 9, 16, 76, 78)
    case 3 => Pick(j, 35, 49, 18, 70, 8, 76, 44, 28, 32)
    case 4 => Pick(j, 31, 5, 68, 25, 32, 75, 2, 77, 29)
    case 5 => Pick(j, 61, 37, 6, 10, 23, 39, 48, 36, 5)
    case 6 => Pick(j, 40, 48, 14, 33, 44, 80, 65, 3, 13)
    case 7 => Pick(j, 12, 61, 43, 50, 37, 20, 73, 6, 79)
    case 8 => Pick(j, 72, 1, 67, 52, 47, 16, 33, 17, 25)
    case 9 => Pick(j, 33, 44, 80, 17, 28, 30, 25, 32, 75)
    case 10 => Pick(j, 72, 35, 63, 1, 49, 51, 67, 18, 60)
    case 11 => Pick(j, 69, 54, 45, 41, 38, 0, 3, 15, 77)
    case 12 => Pick(j, 12, 61, 43, 72, 35, 63, 53, 69, 46)
    case 13 => Pick(j, 71, 23, 62, 47, 8, 9, 4, 38, 27)
    case 14 => Pick(j, 57, 10, 66, 71, 23, 62, 34, 39, 58)
    case 15 => Pick(j, 73, 6, 79, 67, 18, 60, 7, 45, 26)
    case 16 => Pick(j, 34, 39, 58, 16, 76, 78, 59, 0, 21)
    case 17 => Pick(j, 46, 74, 26, 42, 27, 21, 13, 22, 29)
    case 18 => Pick(j, 65, 3, 13, 64, 15, 22, 2, 77, 29)
    case 19 => Pick(j, 43, 20, 79, 66, 62, 58, 14, 19, 68)
    case 20 => Pick(j, 40, 48, 14, 56, 36, 19, 31, 5, 68)
    case 21 => Pick(j, 50, 37, 20, 1, 49, 51, 55, 54, 74)
    case 22 => Pick(j, 24, 41, 42, 4, 38, 27, 59, 0, 21)
    case 23 => Pick(j, 63, 51, 60, 11, 9, 78, 80, 30, 75)
    case 24 => Pick(j, 53, 55, 7, 24, 4, 59, 65, 64, 2)
    case 25 => Pick(j, 57, 10, 66, 52, 70, 11, 24, 41, 42)
    case _ => Pick(j, 12, 50, 73, 57, 71, 34, 40, 56, 31)
  }

  /** Where cell c of row r of the Sudoku is kept in the mixed grid. */
  function Mixed(r: nat, c: nat): nat {
    match r
    case 0 => Pick(c, 12, 61, 43, 72, 35, 63, 53, 69, 46)
    case 1 => Pick(c, 50, 37, 20, 1, 49, 51, 55, 54, 74)
    case 2 => Pick(c, 73, 6, 79, 67, 18, 60, 7, 45, 26)
    case 3 => Pick(c, 57, 10, 66, 52, 70, 11, 24, 41, 42)
    case 4 => Pick(c, 71, 23, 62, 47, 8, 9, 4, 38, 27)
    case 5 => Pick(c, 34, 39, 58, 16, 76, 78, 59, 0, 21)
    case 6 => Pick(c, 40, 48, 14, 33, 44, 80, 65, 3, 13)
    case 7 => Pick(c, 56, 36, 19, 17, 28, 30, 64, 15, 22)
    case _ => Pick(c, 31, 5, 68, 25, 32, 75, 2, 77, 29)
  }

  /** Which cell of the Sudoku is kept at a position of the mixed grid. */
  function FixedPerm(k: nat): nat {
    match k / 9
    case 0 => Pick(k % 9, 52, 12, 78, 61, 42, 73, 19, 24, 40)
    case 1 => Pick(k % 9, 41, 28, 32, 0, 62, 56, 70, 48, 66)
    case 2 => Pick(k % 9, 22, 65, 11, 53, 71, 37, 33, 75, 26)
    case 3 => Pick(k % 9, 44, 67, 80, 68, 72, 76, 57, 45, 4)
    case 4 => Pick(k % 9, 64, 10, 43, 46, 54, 34, 35, 2, 58)
    case 5 => Pick(k % 9, 25, 8, 39, 55, 13, 9, 14, 30, 6)
    case 6 => Pick(k % 9, 16, 15, 63, 27, 47, 51, 23, 1, 38)
    case 7 => Pick(k % 9, 5, 69, 60, 29, 21, 74, 7, 31, 36)
    case _ => Pick(k % 9, 3, 18, 17, 77, 49, 79, 50, 20, 59)
  }

  /** The digits given by the published Sudoku; 0 where none is given. */
  function Given(r: nat, c: nat): nat {
    match r
    case 0 => Pick(c, 8, 0, 0, 0, 0, 0, 0, 0, 0)
    case 1 => Pick(c, 0, 0, 3, 6, 0, 0, 0, 0, 0)
    case 2 => Pick(c, 0, 7, 0, 0, 9, 0, 2, 0, 0)
    case 3 => Pick(c, 0, 5, 0, 0, 0, 7, 0, 0, 0)
    case 4 => Pick(c, 0, 0, 0, 0, 4, 5, 7, 0, 0)
    case 5 => Pick(c, 0, 0, 0, 1, 0, 0, 0, 3, 0)
    case 6 => Pick(c, 0, 0, 1, 0, 0, 0, 0, 6, 8)
    case 7 => Pick(c, 0, 0, 8, 5, 0, 0, 0, 1, 0)
    case _ => Pick(c, 0, 9, 0, 0, 0, 0, 4, 0, 0)
  }

  /** Its solution. */
  function Answer(r: nat, c: nat): nat {
    match r
    case 0 => Pick(c, 8, 1, 2, 7, 5, 3, 6, 4, 9)
    case 1 => Pick(c, 9, 4, 3, 6, 8, 2, 1, 7, 5)
    case 2 => Pick(c, 6, 7, 5, 4, 9, 1, 2, 8, 3)
    case 3 => Pick(c, 1, 5, 4, 2, 3, 7, 8, 9, 6)
    case 4 => Pick(c, 3, 6, 9, 8, 4, 5, 7, 2, 1)
    case 5 => Pick(c, 2, 8, 7, 1, 6, 9, 5, 3, 4)
    case 6 => Pick(c, 5, 2, 1, 9, 7, 4, 3, 6, 8)
    case 7 => Pick(c, 4, 3, 8, 5, 2, 6, 9, 1, 7)
    case _ => Pick(c, 7, 9, 6, 3, 1, 8, 4, 5, 2)
  }

  /** The prime that stands for a digit. */
  function Substituted(digit: nat): nat {
    if digit == 0 then 0 else Pick(digit - 1, 37, 5, 11, 43, 13, 19, 53, 23, 31)
  }

  datatype Unit = Row(k: nat) | Column(k: nat) | Square(k: nat)

  /** The squares are numbered down the left three columns first, then the middle and
      the right ones; their cells are numbered row by row. */
  function SquareRow(k: nat, j: nat): nat {
    match k
    case 0 | 3 | 6 => Pick(j, 0, 0, 0, 1, 1, 1, 2, 2, 2)
    case 1 | 4 | 7 => Pick(j, 3, 3, 3, 4, 4, 4, 5, 5, 5)
    case _ => Pick(j, 6, 6, 6, 7, 7, 7, 8, 8, 8)
  }

  function SquareColumn(k: nat, j: nat): nat {
    match k
    case 0 | 1 | 2 => Pick(j, 0, 1, 2, 0, 1, 2, 0, 1, 2)
    case 3 | 4 | 5 => Pick(j, 3, 4, 5, 3, 4, 5, 3, 4, 5)
    case _ => Pick(j, 6, 7, 8, 6, 7, 8, 6, 7, 8)
  }

  /** Thirds and remainders of the numbers below nine. */
  lemma Thirds(n: nat)
    requires n < 9
    ensures n / 3 == Pick(n, 0, 0, 0, 1, 1, 1, 2, 2, 2) && n % 3 == Pick(n, 0, 1, 2, 0, 1, 2, 0, 1, 2)
  {
  }

  /** The cells of a square are those of three neighbouring rows and columns. */
  lemma SquarePlaces(k: nat, j: nat)
    requires k < 9 && j < 9
    ensures SquareRow(k, j) == 3 * (k % 3) + j / 3 && SquareColumn(k, j) == 3 * (k / 3) + j % 3
  {
    Thirds(k);
    Thirds(j);
  }

  /** The row and the column of cell j of a unit. */
  function Place(u: Unit, j: nat): (nat, nat)
    requires u.k < 9 && j < 9
  {
    match u
    case Row(k) => (k, j)
    case Column(k) => (j, k)
    case Square(k) => (SquareRow(k, j), SquareColumn(k, j))
  }

  /** The unit that group i of the check stands for. */
  function UnitOf(i: nat): Unit {
    match i
    case 0 => Row(7)
    case 1 => Square(6)
    case 2 => Square(4)
    case 3 => Column(4)
    case 4 => Row(8)
    case 5 => Column(1)
    case 6 => Row(6)
    case 7 => Square(0)
    case 8 => Column(3)
    case 9 => Square(5)
    case 10 => Square(3)
    case 11 => Column(7)
    case 12 => Row(0)
    case 13 => Row(4)
    case 14 => Square(1)
    case 15 => Row(2)
    case 16 => Row(5)
    case 17 => Column(8)
    case 18 => Square(8)
    case 19 => Column(2)
    case 20 => Square(2)
    case 21 => Row(1)
    case 22 => Square(7)
    case 23 => Column(5)
    case 24 => Column(6)
    case 25 => Row(3)
    case _ => Column(0)
  }

  function GroupOf(u: Unit): nat {
    match u
    case Row(k) => Pick(k, 12, 21, 15, 25, 13, 16, 6, 0, 4)
    case Column(k) => Pick(k, 26, 5, 19, 8, 3, 23, 24, 11, 17)
    case Square(k) => Pick(k, 7, 14, 20, 10, 2, 9, 1, 22, 18)
  }

  // ---- What the tables say -----------------------------------------------------------

  lemma GroupIsUnitFirst(i: nat, j: nat)
    requires 0 <= i < 5 && j < 9
    ensures UnitOf(i).k < 9
    ensures var (r, c) := Place(UnitOf(i), j); Pos(i, j) == Mixed(r, c)
  {
  }

  lemma GroupIsUnitSecond(i: nat, j: nat)
    requires 5 <= i < 10 && j < 9
    ensures UnitOf(i).k < 9
    ensures var (r, c) := Place(UnitOf(i), j); Pos(i, j) == Mixed(r, c)
  {
  }

  lemma GroupIsUnitThird(i: nat, j: nat)
    requires 10 <= i < 15 && j < 9
    ensures UnitOf(i).k < 9
    ensures var (r, c) := Place(UnitOf(i), j); Pos(i, j) == Mixed(r, c)
  {
  }

  lemma GroupIsUnitFourth(i: nat, j: nat)
    requires 15 <= i < 20 && j < 9
    ensures UnitOf(i).k < 9
    ensures var (r, c) := Place(UnitOf(i), j); Pos(i, j) == Mixed(r, c)
  {
  }

  lemma GroupIsUnitFifth(i: nat, j: nat)
    requires 20 <= i < 24 && j < 9
    ensures UnitOf(i).k < 9
    ensures var (r, c) := Place(UnitOf(i), j); Pos(i, j) == Mixed(r, c)
  {
  }

  lemma GroupIsUnitLast(i: nat, j: nat)
    requires 24 <= i < 27 && j < 9
    ensures UnitOf(i).k < 9
    ensures var (r, c) := Place(UnitOf(i), j); Pos(i, j) == Mixed(r, c)
  {
  }

  /** The groups of the check are the rows, columns and squares of the unmixed grid. */
  lemma GroupIsUnit(i: nat, j: nat)
    requires i < 27 && j < 9
    ensures UnitOf(i).k < 9
    ensures var (r, c) := Place(UnitOf(i), j); Pos(i, j) == Mixed(r, c)
  {
    hide Pos, Mixed, Place, UnitOf;
    if i < 5 {
      GroupIsUnitFirst(i, j);
    } else if i < 10 {
      GroupIsUnitSecond(i, j);
    } else if i < 15 {
      GroupIsUnitThird(i, j);
    } else if i < 20 {
      GroupIsUnitFourth(i, j);
    } else if i < 24 {
      GroupIsUnitFifth(i, j);
    } else {
      GroupIsUnitLast(i, j);
    }
  }

  lemma EveryUnitChecked(u: Unit)
    requires u.k < 9
    ensures GroupOf(u) < 27 && UnitOf(GroupOf(u)) == u
  {
  }

  lemma MixedUndoesPermTop(r: nat, c: nat)
    requires 0 <= r < 3 && c < 9
    ensures Mixed(r, c) < 81 && FixedPerm(Mixed(r, c)) == 9 * r + c
  {
  }

  lemma MixedUndoesPermMiddle(r: nat, c: nat)
    requires 3 <= r < 6 && c < 9
    ensures Mixed(r, c) < 81 && FixedPerm(Mixed(r, c)) == 9 * r + c
  {
  }

  lemma MixedUndoesPermBottom(r: nat, c: nat)
    requires 6 <= r < 9 && c < 9
    ensures Mixed(r, c) < 81 && FixedPerm(Mixed(r, c)) == 9 * r + c
  {
  }

  /** The mixing and the permutation it was made from undo each other. */
  lemma MixedUndoesPerm(r: nat, c: nat)
    requires r < 9 && c < 9
    ensures Mixed(r, c) < 81 && FixedPerm(Mixed(r, c)) == 9 * r + c
  {
    hide Mixed, FixedPerm;
    if r < 3 {
      MixedUndoesPermTop(r, c);
    } else if r < 6 {
      MixedUndoesPermMiddle(r, c);
    } else {
      MixedUndoesPermBottom(r, c);
    }
  }

  lemma PermUndoesMixedTop(k: nat)
    requires 0 <= k < 27
    ensures FixedPerm(k) < 81 && Mixed(FixedPerm(k) / 9, FixedPerm(k) % 9) == k
  {
  }

  lemma PermUndoesMixedMiddle(k: nat)
    requires 27 <= k < 54
    ensures FixedPerm(k) < 81 && Mixed(FixedPerm(k) / 9, FixedPerm(k) % 9) == k
  {
  }

  lemma PermUndoesMixedBottom(k: nat)
    requires 54 <= k < 81
    ensures FixedPerm(k) < 81 && Mixed(FixedPerm(k) / 9, FixedPerm(k) % 9) == k
  {
  }

  lemma PermUndoesMixed(k: nat)
    requires k < 81
    ensures FixedPerm(k) < 81 && Mixed(FixedPerm(k) / 9, FixedPerm(k) % 9) == k
  {
    hide Mixed, FixedPerm;
    if k < 27 {
      PermUndoesMixedTop(k);
    } else if k < 54 {
      PermUndoesMixedMiddle(k);
    } else {
      PermUndoesMixedBottom(k);
    }
  }
}
