/** The Sudoku challenge: the grid of primes, its filling, and the check that
    multiplies the generator of the curve by every cell of a group. */
module Sudoku {
  import opened ModArith
  import opened Primes
  import opened Shamir
  import opened SudokuTables

  const GRID_SIZE := 81

  /** The primes that replace the digits 1 to 9. */
  const PRIMES: seq<int> := [37, 5, 11, 43, 13, 19, 53, 23, 31]

  /** The ninth power of the largest byte. */
  const LARGEST_PRODUCT := 255 * 255 * 255 * 255 * 255 * 255 * 255 * 255 * 255

  /** What a cell of a grid that reset and fill produce can hold. */
  ghost predicate CellOk(v: int) {
    v == 0 || (IsPrime(v) && v < 64)
  }

  ghost predicate GridOk(grid: seq<int>) {
    |grid| == GRID_SIZE && forall k :: 0 <= k < GRID_SIZE ==> CellOk(grid[k])
  }

  // ---- The check -------------------------------------------------------------------------

  lemma PosInRange(i: nat, j: nat)
    requires i < 27 && j < 9
    ensures Pos(i, j) < GRID_SIZE
  {
    hide Pos, Mixed, Place, UnitOf;
    GroupIsUnit(i, j);
    PlaceInRange(UnitOf(i), j);
    var (r, c) := Place(UnitOf(i), j);
    MixedUndoesPerm(r, c);
  }

  lemma PlaceInRange(u: Unit, j: nat)
    requires u.k < 9 && j < 9
    ensures Place(u, j).0 < 9 && Place(u, j).1 < 9
  {
  }

  /** The cell at position j of group i. */
  function Cell(grid: seq<int>, i: nat, j: nat): int
    requires |grid| == GRID_SIZE && i < 27 && j < 9
  {
    PosInRange(i, j);
    grid[Pos(i, j)]
  }

  function Cells(grid: seq<int>, i: nat): (s: seq<int>)
    requires |grid| == GRID_SIZE && i < 27
  {
    seq(9, j requires 0 <= j < 9 => Cell(grid, i, j))
  }

  ghost predicate GroupPasses(grid: seq<int>, i: nat)
    requires |grid| == GRID_SIZE && i < 27
  {
    Product(Cells(grid, i)) == Product(PRIMES) && 0 !in Cells(grid, i)
  }

  /** What check_grid decides on any array of bytes. */
  ghost predicate Accepts(grid: seq<int>)
    requires |grid| == GRID_SIZE
  {
    forall i :: 0 <= i < 27 ==> GroupPasses(grid, i)
  }

  /** The generator times every prime, in turn. */
  method ComputeExpectedPoint(q: Prime) returns (g1: Point)
    ensures g1 == Point(Product(PRIMES) % q)
  {
    g1 := G(q);
    var n := 0;
    assert PRIMES[..0] == [];
    while n < |PRIMES|
      invariant 0 <= n <= |PRIMES| && g1 == Point(Product(PRIMES[..n]) % q)
    {
      TimesNext(PRIMES, n, q);
      g1 := Times(PRIMES[n], g1, q);
      n := n + 1;
    }
    assert PRIMES[..n] == PRIMES;
  }

  /** Multiplying the point of a product by the next factor. */
  lemma TimesNext(s: seq<int>, n: nat, q: Prime)
    requires n < |s|
    ensures Times(s[n], Point(Product(s[..n]) % q), q) == Point(Product(s[..n + 1]) % q)
  {
    assert s[..n + 1] == s[..n] + [s[n]];
    ProductAppend(s[..n], [s[n]]);
    assert [s[n]][1..] == [];
    var p := Product(s[..n]);
    CongMod(p, q);
    CongMul(s[n], s[n], p % q, p, q);
    MulComm(s[n], p);
  }

  method CheckGroup(grid: seq<int>, i: nat, expected: Point, q: Prime) returns (ok: bool)
    requires |grid| == GRID_SIZE && i < 27
    requires forall k :: 0 <= k < GRID_SIZE ==> 0 <= grid[k] <= 255
    requires q > LARGEST_PRODUCT && expected == Point(Product(PRIMES) % q)
    ensures ok <==> GroupPasses(grid, i)
  {
    hide Product, Times, Cell, Cells, IsPrime;
    ghost var s := Cells(grid, i);
    GroupBytes(grid, i, q);
    var key := Cell(grid, i, 0);
    // no key pair for the scalar zero
    if key % q == 0 {
      return false;
    }
    var point := Times(key, G(q), q);
    FirstPoint(s, q);
    var j := 1;
    while j < 9
      invariant 1 <= j <= 9 && point == Point(Product(s[..j]) % q)
      invariant 0 !in s[..j]
    {
      var cell := Cell(grid, i, j);
      if cell == 0 {
        return false;
      }
      TimesNext(s, j, q);
      point := Times(cell, point, q);
      assert s[..j + 1] == s[..j] + [s[j]];
      j := j + 1;
    }
    assert s[..9] == s;
    ok := point == expected;
    SmallProducts(s, q);
  }

  lemma GroupBytes(grid: seq<int>, i: nat, q: Prime)
    requires |grid| == GRID_SIZE && i < 27 && q > LARGEST_PRODUCT
    requires forall k :: 0 <= k < GRID_SIZE ==> 0 <= grid[k] <= 255
    ensures |Cells(grid, i)| == 9
    ensures forall j :: 0 <= j < 9 ==> Cells(grid, i)[j] == Cell(grid, i, j) && 0 <= Cells(grid, i)[j] <= 255
    ensures Cell(grid, i, 0) % q == Cell(grid, i, 0)
  {
    hide Pos;
    forall j | 0 <= j < 9
      ensures 0 <= Cells(grid, i)[j] <= 255
    {
      PosInRange(i, j);
    }
    PosInRange(i, 0);
    ModIsRemainder(Cell(grid, i, 0), q, 0, Cell(grid, i, 0));
  }

  lemma FirstPoint(s: seq<int>, q: Prime)
    requires |s| == 9
    ensures Times(s[0], G(q), q) == Point(Product(s[..1]) % q)
  {
    assert s[..1] == [s[0]] && s[..1][1..] == [];
    TimesGenerator(s[0], q);
  }

  /** Products of nine bytes are told apart by the group order. */
  lemma SmallProducts(s: seq<int>, q: Prime)
    requires |s| == 9 && q > LARGEST_PRODUCT
    requires forall j :: 0 <= j < 9 ==> 0 <= s[j] <= 255
    ensures Product(s) % q == Product(PRIMES) % q <==> Product(s) == Product(PRIMES)
  {
    hide Product;
    NineBytes(s);
    NineBytes(PRIMES);
    if Product(s) % q == Product(PRIMES) % q {
      SmallCongEqual(Product(s), Product(PRIMES), q);
    }
  }

  lemma NineBytes(s: seq<int>)
    requires |s| == 9
    requires forall j :: 0 <= j < 9 ==> 0 <= s[j] <= 255
    ensures 0 <= Product(s) <= LARGEST_PRODUCT
  {
    hide Product;
    ProductBound(s);
    PowerOfByte();
  }

  lemma {:induction false} ProductBound(s: seq<int>)
    requires forall j :: 0 <= j < |s| ==> 0 <= s[j] <= 255
    ensures 0 <= Product(s) <= Pow(255, |s|)
  {
    if s != [] {
      ProductBound(s[1..]);
      var p, m := Product(s[1..]), Pow(255, |s| - 1);
      ScaledBound(s[0], p);
      assert 255 * p <= 255 * m;
    }
  }

  lemma ScaledBound(v: int, p: int)
    requires 0 <= v <= 255 && p >= 0
    ensures 0 <= v * p <= 255 * p
  {
  }

  lemma PowerOfByte()
    ensures Pow(255, 9) == LARGEST_PRODUCT
  {
    assert Pow(255, 2) == 255 * 255;
    assert Pow(255, 4) == 255 * 255 * 255 * 255;
    assert Pow(255, 6) == 255 * 255 * 255 * 255 * 255 * 255;
    assert Pow(255, 8) == 255 * 255 * 255 * 255 * 255 * 255 * 255 * 255;
  }

  /** check_grid on any array of bytes. */
  method CheckGrid(grid: seq<int>, q: Prime) returns (ok: bool)
    requires |grid| == GRID_SIZE
    requires forall k :: 0 <= k < GRID_SIZE ==> 0 <= grid[k] <= 255
    requires q > LARGEST_PRODUCT
    ensures ok <==> Accepts(grid)
  {
    hide GroupPasses;
    var expected := ComputeExpectedPoint(q);
    var i := 0;
    while i < 27
      invariant 0 <= i <= 27
      invariant forall n :: 0 <= n < i ==> GroupPasses(grid, n)
    {
      var passes := CheckGroup(grid, i, expected, q);
      if !passes {
        return false;
      }
      i := i + 1;
    }
    return true;
  }

  // ---- What acceptance means ----------------------------------------------------------------

  /** The cell of the Sudoku in row r and column c, read out of the mixed grid. */
  function Unmixed(grid: seq<int>, r: nat, c: nat): int
    requires |grid| == GRID_SIZE && r < 9 && c < 9
  {
    MixedUndoesPerm(r, c);
    grid[Mixed(r, c)]
  }

  function UnitCells(grid: seq<int>, u: Unit): seq<int>
    requires |grid| == GRID_SIZE && u.k < 9
  {
    seq(9, j requires 0 <= j < 9 =>
      PlaceInRange(u, j);
      Unmixed(grid, Place(u, j).0, Place(u, j).1))
  }

  /** Every row, column and square holds each of the nine primes exactly once. */
  ghost predicate Solved(grid: seq<int>)
    requires |grid| == GRID_SIZE
  {
    forall u: Unit :: u.k < 9 ==> multiset(UnitCells(grid, u)) == multiset(PRIMES)
  }

  lemma GroupCells(grid: seq<int>, i: nat)
    requires |grid| == GRID_SIZE && i < 27
    ensures UnitOf(i).k < 9 && Cells(grid, i) == UnitCells(grid, UnitOf(i))
  {
    hide Pos, Mixed, Place, UnitOf;
    GroupIsUnit(i, 0);
    var u := UnitOf(i);
    forall j | 0 <= j < 9
      ensures Cells(grid, i)[j] == UnitCells(grid, u)[j]
    {
      GroupIsUnit(i, j);
    }
    assert Cells(grid, i) == UnitCells(grid, u);
  }

  lemma PrimesArePrime()
    ensures AllPrime(PRIMES)
  {
    hide IsPrime;
    PrimeBelow64(5);
    PrimeBelow64(11);
    PrimeBelow64(13);
    PrimeBelow64(19);
    PrimeBelow64(23);
    PrimeBelow64(31);
    PrimeBelow64(37);
    PrimeBelow64(43);
    PrimeBelow64(53);
  }

  lemma PrimeBelow64(p: int)
    requires 2 <= p < 64
    requires (p == 2 || p % 2 != 0) && (p == 3 || p % 3 != 0) && (p == 5 || p % 5 != 0) && (p == 7 || p % 7 != 0)
    ensures IsPrime(p)
  {
    forall d | 2 <= d < p
      ensures !Divides(d, p)
    {
      if Divides(d, p) {
        var k := DividesWitness(d, p);
        if d < 8 {
          SmallDivisor(p, d, k);
        } else {
          assert k >= 8 ==> k * d >= 8 * d;
          assert k <= 0 ==> k * d <= 0;
          assert k == 1 ==> k * d == d;
          MulComm(k, d);
          SmallDivisor(p, k, d);
        }
      }
    }
  }

  lemma PrimesListed(v: nat)
    ensures IsPrime(v) && v < 64 <==> v in {2, 3, 5, 7, 11, 13, 17, 19, 23, 29, 31, 37, 41, 43, 47, 53, 59, 61}
  {
    hide IsPrime;
    AtLeastTwo(v);
    if v in {2, 3, 5, 7, 11, 13, 17, 19, 23, 29, 31, 37, 41, 43, 47, 53, 59, 61} {
      PrimeBelow64(v);
    }
    if IsPrime(v) && v < 64 {
      OnlyItself(v, 2);
      OnlyItself(v, 3);
      OnlyItself(v, 5);
      OnlyItself(v, 7);
      NotDivided(v);
    }
  }

  lemma AtLeastTwo(p: nat)
    ensures IsPrime(p) ==> p >= 2
  {
  }

  lemma OnlyItself(p: nat, d: nat)
    requires IsPrime(p) && d >= 2
    ensures p == d || p % d != 0
  {
    if p % d == 0 {
      DividesByWitness(d, p, p / d);
      DividesAtMost(d, p);
      assert !(2 <= d < p);
    }
  }

  lemma NotDivided(v: nat)
    requires 2 <= v < 64
    requires (v == 2 || v % 2 != 0) && (v == 3 || v % 3 != 0) && (v == 5 || v % 5 != 0) && (v == 7 || v % 7 != 0)
    ensures v in {2, 3, 5, 7, 11, 13, 17, 19, 23, 29, 31, 37, 41, 43, 47, 53, 59, 61}
  {
  }

  lemma SmallDivisor(p: int, d: int, k: int)
    requires 2 <= d < 8 && d < p && p == k * d
    ensures p != 2 && p != 3 && (p % 2 == 0 || p % 3 == 0 || (p % 5 == 0 && p != 5) || (p % 7 == 0 && p != 7))
  {
    if d == 4 {
      ModIsRemainder(p, 2, 2 * k, 0);
    } else if d == 6 {
      ModIsRemainder(p, 2, 3 * k, 0);
    } else {
      ModIsRemainder(p, d, k, 0);
    }
  }

  /** A group of cells that are zero or prime passes exactly when it holds each of
      the nine primes exactly once. */
  lemma GroupPassesIff(grid: seq<int>, i: nat)
    requires GridOk(grid) && i < 27
    ensures GroupPasses(grid, i) <==> multiset(Cells(grid, i)) == multiset(PRIMES)
  {
    hide Product, IsPrime, Cells, CellOk, AllPrime;
    var s := Cells(grid, i);
    NineCells(grid, i);
    if 0 in s {
      NotThePrimes(s);
    } else {
      NonZeroArePrime(s);
      SameProductExactly(s);
    }
  }

  lemma NotThePrimes(s: seq<int>)
    requires 0 in s
    ensures multiset(s) != multiset(PRIMES)
  {
    assert 0 in multiset(s);
    assert 0 !in PRIMES;
  }

  lemma NonZeroArePrime(s: seq<int>)
    requires 0 !in s && forall j :: 0 <= j < |s| ==> CellOk(s[j])
    ensures AllPrime(s)
  {
    hide IsPrime;
  }

  lemma SameProductExactly(s: seq<int>)
    requires AllPrime(s)
    ensures Product(s) == Product(PRIMES) <==> multiset(s) == multiset(PRIMES)
  {
    hide Product, IsPrime;
    PrimesArePrime();
    if Product(s) == Product(PRIMES) {
      UniqueFactorisation(s, PRIMES);
    }
    if multiset(s) == multiset(PRIMES) {
      SameProduct(s, PRIMES);
    }
  }

  lemma NineCells(grid: seq<int>, i: nat)
    requires GridOk(grid) && i < 27
    ensures forall j :: 0 <= j < |Cells(grid, i)| ==> CellOk(Cells(grid, i)[j])
  {
    hide IsPrime, Pos;
    forall j | 0 <= j < 9
      ensures CellOk(Cells(grid, i)[j])
    {
      PosInRange(i, j);
      assert CellOk(grid[Pos(i, j)]);
    }
  }

  /** The check accepts exactly the solved grids. */
  lemma AcceptsExactlySolved(grid: seq<int>)
    requires GridOk(grid)
    ensures Accepts(grid) <==> Solved(grid)
  {
    hide GroupPasses, Cells, UnitCells, CellOk, UnitOf, GroupOf;
    forall i | 0 <= i < 27
      ensures UnitOf(i).k < 9
      ensures GroupPasses(grid, i) <==> multiset(UnitCells(grid, UnitOf(i))) == multiset(PRIMES)
    {
      GroupPassesIff(grid, i);
      GroupCells(grid, i);
    }
    forall u: Unit | u.k < 9
      ensures GroupOf(u) < 27 && UnitOf(GroupOf(u)) == u
    {
      EveryUnitChecked(u);
    }
  }

  // ---- Reset and fill -------------------------------------------------------------------------

  const GIVENS: seq<int> := [11, 19, 43, 19, 53, 31, 53, 5, 43, 13, 13, 53, 23, 23, 37, 37, 37, 13, 31, 23, 11]

  function InitialGrid(): (grid: seq<int>)
    ensures |grid| == GRID_SIZE
  {
    GIVENS + seq(GRID_SIZE - 21, _ => 0)
  }

  /** A cell of the grid is filled once, with a value whose low byte is a prime below 64. */
  predicate Fillable(grid: seq<int>, pos: nat, value: int) {
    pos < |grid| && grid[pos] == 0 && IsPrime(value % 256) && value % 256 < 64
  }

  function Filled(grid: seq<int>, pos: nat, value: int): seq<int> {
    if Fillable(grid, pos, value) then grid[pos := value % 256] else grid
  }

  class Challenge {
    const cells: array<int>

    ghost predicate Valid()
      reads cells
    {
      GridOk(cells[..])
    }

    /** The global array starts as zeros. */
    constructor ()
      ensures Valid() && fresh(cells)
    {
      cells := new int[GRID_SIZE](_ => 0);
    }

    method ResetGrid()
      requires cells.Length == GRID_SIZE
      modifies cells
      ensures Valid() && cells[..] == InitialGrid()
    {
      InitialGridOk();
      var i := 0;
      while i < 21
        invariant 0 <= i <= 21
        invariant forall k :: 0 <= k < i ==> cells[k] == GIVENS[k]
      {
        cells[i] := GIVENS[i];
        i := i + 1;
      }
      while i < GRID_SIZE
        invariant 21 <= i <= GRID_SIZE
        invariant forall k :: 0 <= k < 21 ==> cells[k] == GIVENS[k]
        invariant forall k :: 21 <= k < i ==> cells[k] == 0
      {
        cells[i] := 0;
        i := i + 1;
      }
      assert cells[..] == InitialGrid();
    }

    /** The cell is read before the position is checked: beyond is what the memory behind
        the grid holds there, which makes no difference. */
    method FillGridEntry(pos: nat, value: int, beyond: int) returns (result: int)
      requires Valid()
      modifies cells
      ensures Valid() && cells[..] == Filled(old(cells[..]), pos, value)
      ensures result == if Fillable(old(cells[..]), pos, value) then 0 else -1
      ensures result == 0 <==>
                pos < 81 && old(cells[..])[pos] == 0
                && value % 256 in {2, 3, 5, 7, 11, 13, 17, 19, 23, 29, 31, 37, 41, 43, 47, 53, 59, 61}
      ensures cells[..] == if result == 0 then old(cells[..])[pos := value % 256] else old(cells[..])
    {
      PrimesListed(value % 256);
      var cell := if pos < GRID_SIZE then cells[pos] else beyond;
      if cell != 0 || pos >= GRID_SIZE {
        return -1;
      }
      var low := value % 256;
      if !IsPrime(low) || low >= 64 {
        return -1;
      }
      cells[pos] := low;
      return 0;
    }

    /** On every grid that reset and fill can produce, the check accepts exactly the
        solved ones. */
    method Check(q: Prime) returns (ok: bool)
      requires Valid() && q > LARGEST_PRODUCT
      ensures ok <==> Solved(cells[..])
    {
      forall k | 0 <= k < GRID_SIZE
        ensures 0 <= cells[k] <= 255
      {
        assert CellOk(cells[..][k]);
      }
      ok := CheckGrid(cells[..], q);
      AcceptsExactlySolved(cells[..]);
    }
  }

  lemma InitialGridOk()
    ensures GridOk(InitialGrid())
  {
    hide IsPrime;
    PrimesArePrime();
    var g := InitialGrid();
    forall k | 0 <= k < GRID_SIZE
      ensures CellOk(g[k])
    {
      if k < 21 {
        assert g[k] == GIVENS[k] && GIVENS[k] in PRIMES;
        var n :| 0 <= n < |PRIMES| && PRIMES[n] == GIVENS[k];
      } else {
        assert g[k] == 0;
      }
    }
  }

  lemma FilledOk(grid: seq<int>, pos: nat, value: int)
    requires GridOk(grid)
    ensures GridOk(Filled(grid, pos, value))
  {
  }

  // ---- Runs ---------------------------------------------------------------------------------

  datatype Entry = Entry(pos: nat, value: int)

  /** The grid after a run of fills. */
  function After(grid: seq<int>, fills: seq<Entry>): (after: seq<int>)
    requires |grid| == GRID_SIZE
    ensures |after| == GRID_SIZE
    decreases |fills|
  {
    if fills == [] then grid
    else Filled(After(grid, fills[..|fills| - 1]), fills[|fills| - 1].pos, fills[|fills| - 1].value)
  }

  /** Fills never change a cell that is not empty. */
  lemma {:induction false} FillsKeepCells(grid: seq<int>, fills: seq<Entry>)
    requires GridOk(grid)
    ensures GridOk(After(grid, fills))
    ensures forall k :: 0 <= k < GRID_SIZE && grid[k] != 0 ==> After(grid, fills)[k] == grid[k]
    decreases |fills|
  {
    if fills != [] {
      var last, rest := fills[|fills| - 1], fills[..|fills| - 1];
      FillsKeepCells(grid, rest);
      FilledOk(After(grid, rest), last.pos, last.value);
    }
  }

  /** The grid solves the published Sudoku, with primes for digits. */
  ghost predicate AnswersPuzzle(grid: seq<int>)
    requires |grid| == GRID_SIZE
  {
    && Solved(grid)
    && forall r: nat, c: nat :: r < 9 && c < 9 && Given(r, c) != 0 ==> Unmixed(grid, r, c) == Substituted(Given(r, c))
  }

  /** The reset grid holds the given digits of the published Sudoku, mixed. */
  lemma ResetHoldsGivens(r: nat, c: nat)
    requires r < 9 && c < 9
    ensures Unmixed(InitialGrid(), r, c) == Substituted(Given(r, c))
  {
  }

  /** A grid whose every filled-in given is mixed in keeps the cells of the reset. */
  lemma GivensAreReset(grid: seq<int>, k: nat)
    requires |grid| == GRID_SIZE && AnswersPuzzle(grid) && k < GRID_SIZE
    ensures InitialGrid()[k] != 0 ==> grid[k] == InitialGrid()[k]
  {
    hide Solved, Mixed, FixedPerm, Given, Substituted, InitialGrid;
    PermUndoesMixed(k);
    var r, c := FixedPerm(k) / 9, FixedPerm(k) % 9;
    ResetHoldsGivens(r, c);
    GivenZero(r, c);
    assert Mixed(r, c) == k;
  }

  lemma GivenZero(r: nat, c: nat)
    requires r < 9 && c < 9
    ensures Given(r, c) == 0 <==> Substituted(Given(r, c)) == 0
  {
  }

  lemma SolvedHasNoZero(grid: seq<int>, k: nat)
    requires |grid| == GRID_SIZE && Solved(grid) && k < GRID_SIZE
    ensures grid[k] != 0
  {
    hide Mixed, FixedPerm;
    PermUndoesMixed(k);
    var r, c := FixedPerm(k) / 9, FixedPerm(k) % 9;
    var s := UnitCells(grid, Row(r));
    assert s[c] == grid[k];
    if 0 in s {
      NotThePrimes(s);
    }
  }

  /** Filling every position with the value of a grid. */
  function Entries(grid: seq<int>, n: nat): (fills: seq<Entry>)
    requires |grid| == GRID_SIZE && n <= GRID_SIZE
  {
    seq(n, k requires 0 <= k < n => Entry(k, grid[k]))
  }

  lemma {:induction false} EntriesReach(grid: seq<int>, n: nat)
    requires GridOk(grid) && AnswersPuzzle(grid) && n <= GRID_SIZE
    ensures After(InitialGrid(), Entries(grid, n)) == grid[..n] + InitialGrid()[n..]
  {
    hide InitialGrid, AnswersPuzzle, IsPrime;
    if n > 0 {
      EntriesReach(grid, n - 1);
      var before := After(InitialGrid(), Entries(grid, n - 1));
      assert Entries(grid, n)[..n - 1] == Entries(grid, n - 1);
      assert Entries(grid, n)[n - 1] == Entry(n - 1, grid[n - 1]);
      EntryReaches(grid, n - 1, before);
    } else {
      assert grid[..0] + InitialGrid()[0..] == InitialGrid();
    }
  }

  lemma EntryReaches(grid: seq<int>, k: nat, before: seq<int>)
    requires GridOk(grid) && AnswersPuzzle(grid) && k < GRID_SIZE
    requires before == grid[..k] + InitialGrid()[k..]
    ensures Filled(before, k, grid[k]) == grid[..k + 1] + InitialGrid()[k + 1..]
  {
    hide InitialGrid, Solved, IsPrime;
    GivensAreReset(grid, k);
    assert AnswersPuzzle(grid) ==> Solved(grid);
    SolvedHasNoZero(grid, k);
    assert before[k] == InitialGrid()[k];
    assert CellOk(grid[k]) && IsPrime(grid[k]) && grid[k] < 64;
    PrimeAtLeastTwo(grid[k]);
    assert Fillable(before, k, grid[k]) <==> before[k] == 0;
    var after := Filled(before, k, grid[k]);
    assert after[k] == grid[k];
  }

  lemma PrimeAtLeastTwo(p: int)
    requires IsPrime(p)
    ensures p >= 2
  {
  }

  /** Main result: the grids that a run of fills after a reset reaches and the check
      accepts are the solutions of the published Sudoku, all of them and no others. */
  lemma ReachedAndAccepted(grid: seq<int>)
    requires |grid| == GRID_SIZE
    ensures (exists fills :: After(InitialGrid(), fills) == grid && Accepts(grid))
            <==> GridOk(grid) && AnswersPuzzle(grid)
  {
    hide InitialGrid, After, Accepts, Solved, Given, Substituted, Entries;
    if fills :| After(InitialGrid(), fills) == grid && Accepts(grid) {
      AcceptedAnswers(fills);
    }
    if GridOk(grid) && AnswersPuzzle(grid) {
      EntriesReach(grid, GRID_SIZE);
      assert grid[..GRID_SIZE] + InitialGrid()[GRID_SIZE..] == grid;
      AcceptsExactlySolved(grid);
      var fills := Entries(grid, GRID_SIZE);
      assert After(InitialGrid(), fills) == grid && Accepts(grid);
    }
  }

  lemma AcceptedAnswers(fills: seq<Entry>)
    requires Accepts(After(InitialGrid(), fills))
    ensures var grid := After(InitialGrid(), fills); GridOk(grid) && AnswersPuzzle(grid)
  {
    hide InitialGrid, After, Accepts, Solved, Given, Substituted, Mixed, GridOk;
    var grid := After(InitialGrid(), fills);
    InitialGridOk();
    FillsKeepCells(InitialGrid(), fills);
    AcceptsExactlySolved(grid);
    forall r: nat, c: nat | r < 9 && c < 9 && Given(r, c) != 0
      ensures Unmixed(grid, r, c) == Substituted(Given(r, c))
    {
      ResetHoldsGivens(r, c);
      GivenZero(r, c);
      MixedUndoesPerm(r, c);
    }
  }

  // ---- The answer is one --------------------------------------------------------------------

  function AnswerGrid(): seq<int> {
    seq(GRID_SIZE, k requires 0 <= k < GRID_SIZE => Substituted(Answer(FixedPerm(k) / 9, FixedPerm(k) % 9)))
  }

  lemma AnswerCell(r: nat, c: nat)
    requires r < 9 && c < 9
    ensures Unmixed(AnswerGrid(), r, c) == Substituted(Answer(r, c))
  {
    hide Mixed, FixedPerm, Answer, Substituted;
    MixedUndoesPerm(r, c);
  }

  function AnswerCells(u: Unit): (s: seq<int>)
    requires u.k < 9
    ensures |s| == 9
  {
    seq(9, j requires 0 <= j < 9 => Substituted(Answer(Place(u, j).0, Place(u, j).1)))
  }

  lemma AnswerUnits(u: Unit)
    requires u.k < 9
    ensures UnitCells(AnswerGrid(), u) == AnswerCells(u)
  {
    hide Mixed, FixedPerm, Answer, Substituted, Place, Unmixed;
    forall j | 0 <= j < 9
      ensures UnitCells(AnswerGrid(), u)[j] == AnswerCells(u)[j]
    {
      PlaceInRange(u, j);
      AnswerCell(Place(u, j).0, Place(u, j).1);
    }
  }

  function DigitIn(u: Unit, j: nat): nat
    requires u.k < 9 && j < 9
  {
    Answer(Place(u, j).0, Place(u, j).1)
  }

  function FirstWith(u: Unit, d: nat): (j: nat)
    requires u.k < 9
    ensures j < 9
  {
    if DigitIn(u, 0) == d then 0 else if DigitIn(u, 1) == d then 1 else if DigitIn(u, 2) == d then 2
    else if DigitIn(u, 3) == d then 3 else if DigitIn(u, 4) == d then 4 else if DigitIn(u, 5) == d then 5
    else if DigitIn(u, 6) == d then 6 else if DigitIn(u, 7) == d then 7 else 8
  }

  lemma RowDigits(k: nat, j: nat)
    requires k < 9 && j < 9
    ensures DigitIn(Row(k), j) == Answer(k, j)
  {
  }

  lemma AnswerRow(k: nat, d: nat)
    requires k < 9 && 1 <= d <= 9
    ensures DigitIn(Row(k), FirstWith(Row(k), d)) == d
  {
    hide DigitIn;
    RowDigits(k, 0);
    RowDigits(k, 1);
    RowDigits(k, 2);
    RowDigits(k, 3);
    RowDigits(k, 4);
    RowDigits(k, 5);
    RowDigits(k, 6);
    RowDigits(k, 7);
    RowDigits(k, 8);
  }

  lemma AnswerColumn(k: nat, d: nat)
    requires k < 9 && 1 <= d <= 9
    ensures DigitIn(Column(k), FirstWith(Column(k), d)) == d
  {
  }

  /** The answer, square by square. */
  function SquareDigit(k: nat, j: nat): nat {
    match k
    case 0 => Pick(j, 8, 1, 2, 9, 4, 3, 6, 7, 5)
    case 1 => Pick(j, 1, 5, 4, 3, 6, 9, 2, 8, 7)
    case 2 => Pick(j, 5, 2, 1, 4, 3, 8, 7, 9, 6)
    case 3 => Pick(j, 7, 5, 3, 6, 8, 2, 4, 9, 1)
    case 4 => Pick(j, 2, 3, 7, 8, 4, 5, 1, 6, 9)
    case 5 => Pick(j, 9, 7, 4, 5, 2, 6, 3, 1, 8)
    case 6 => Pick(j, 6, 4, 9, 1, 7, 5, 2, 8, 3)
    case 7 => Pick(j, 8, 9, 6, 7, 2, 1, 5, 3, 4)
    case _ => Pick(j, 3, 6, 8, 9, 1, 7, 4, 5, 2)
  }

  lemma SquareDigits(k: nat, j: nat)
    requires k < 9 && j < 9
    ensures DigitIn(Square(k), j) == SquareDigit(k, j)
  {
  }

  lemma AnswerSquare(k: nat, d: nat)
    requires k < 9 && 1 <= d <= 9
    ensures DigitIn(Square(k), FirstWith(Square(k), d)) == d
  {
    hide DigitIn;
    SquareDigits(k, 0);
    SquareDigits(k, 1);
    SquareDigits(k, 2);
    SquareDigits(k, 3);
    SquareDigits(k, 4);
    SquareDigits(k, 5);
    SquareDigits(k, 6);
    SquareDigits(k, 7);
    SquareDigits(k, 8);
  }

  /** The answer that the authors give, with primes for its digits and mixed, is among
      the grids that ReachedAndAccepted characterises. */
  lemma AnswerAccepted()
    ensures GridOk(AnswerGrid()) && AnswersPuzzle(AnswerGrid())
  {
    hide AnswerCells, Answer, Substituted, Given, UnitCells, Unmixed, IsPrime, AnswerGrid;
    AnswerGridOk();
    forall u: Unit | u.k < 9
      ensures multiset(UnitCells(AnswerGrid(), u)) == multiset(PRIMES)
    {
      AnswerUnits(u);
      AnswerUnitHolds(u);
    }
    forall r: nat, c: nat | r < 9 && c < 9 && Given(r, c) != 0
      ensures Unmixed(AnswerGrid(), r, c) == Substituted(Given(r, c))
    {
      AnswerCell(r, c);
      AnswerExtendsGiven(r, c);
    }
  }

  lemma AnswerUnitHolds(u: Unit)
    requires u.k < 9
    ensures multiset(AnswerCells(u)) == multiset(PRIMES)
  {
    hide AnswerCells, Substituted;
    forall i | 0 <= i < |PRIMES|
      ensures PRIMES[i] in AnswerCells(u)
    {
      PrimeInUnit(u, i);
    }
    PrimesDiffer();
    HoldsEach(AnswerCells(u), PRIMES);
  }

  lemma PrimesDiffer()
    ensures |PRIMES| == 9 && forall i, j :: 0 <= i < j < |PRIMES| ==> PRIMES[i] != PRIMES[j]
  {
  }

  lemma PrimeInUnit(u: Unit, i: nat)
    requires u.k < 9 && i < |PRIMES|
    ensures PRIMES[i] in AnswerCells(u)
  {
    hide AnswerCells, Substituted, IsPrime;
    DigitInUnit(u, i + 1);
    SubstitutedIsPrime(i);
  }

  lemma DigitInUnit(u: Unit, d: nat)
    requires u.k < 9 && 1 <= d <= 9
    ensures Substituted(d) in AnswerCells(u)
  {
    hide Answer, Place, FirstWith, Substituted;
    match u {
      case Row(k) => AnswerRow(k, d);
      case Column(k) => AnswerColumn(k, d);
      case Square(k) => AnswerSquare(k, d);
    }
    var j := FirstWith(u, d);
    assert DigitIn(u, j) == d;
    assert AnswerCells(u)[j] == Substituted(DigitIn(u, j));
  }

  lemma AnswerExtendsGiven(r: nat, c: nat)
    requires r < 9 && c < 9
    ensures 1 <= Answer(r, c) <= 9
    ensures Given(r, c) != 0 ==> Answer(r, c) == Given(r, c)
  {
  }

  lemma SubstitutedIsPrime(i: nat)
    requires i < 9
    ensures Substituted(i + 1) == PRIMES[i] && CellOk(PRIMES[i])
  {
    hide IsPrime;
    PrimesArePrime();
  }

  lemma AnswerGridOk()
    ensures GridOk(AnswerGrid())
  {
    hide Answer, Substituted, FixedPerm, CellOk;
    forall k | 0 <= k < GRID_SIZE
      ensures CellOk(AnswerGrid()[k])
    {
      PermUndoesMixed(k);
      AnswerExtendsGiven(FixedPerm(k) / 9, FixedPerm(k) % 9);
      SubstitutedIsPrime(Answer(FixedPerm(k) / 9, FixedPerm(k) % 9) - 1);
    }
  }
}
