/** The 9x9 Sudoku grid as a value: the predicates the generator's scans decide, what a
    solved grid is, the order in which the backtracking search visits cells, and the
    number of clues (non-zero cells) a grid holds. */
module Grids {
  import Digits

  /** BOARD_SIZE and MIN_FILLED_CELLS of the board class. */
  const BoardSize: int := 9
  const MinFilledCells: int := 30

  /** A 9x9 matrix of cell values; 0 marks an empty cell. */
  type Grid = g: seq<seq<int>> | |g| == 9 && forall r :: 0 <= r < |g| ==> |g[r]| == 9
    witness seq(9, _ => seq(9, _ => 0))

  predicate InBounds(r: int, c: int) {
    0 <= r < BoardSize && 0 <= c < BoardSize
  }

  predicate IsDigit(v: int) {
    1 <= v <= BoardSize
  }

  /** Row-major position of cell (r, c); position (r, 9) is the start of row r + 1. */
  function Index(r: int, c: int): int {
    BoardSize * r + c
  }

  /** Cell (r, c) lies in one of the three boxes on the main diagonal. */
  predicate InDiagonalBox(r: int, c: int) {
    r / 3 == c / 3
  }

  predicate SameBox(r1: int, c1: int, r2: int, c2: int) {
    r1 / 3 == r2 / 3 && c1 / 3 == c2 / 3
  }

  /** Two cells share a row, a column or a 3x3 box. */
  predicate SameUnit(r1: int, c1: int, r2: int, c2: int) {
    r1 == r2 || c1 == c2 || SameBox(r1, c1, r2, c2)
  }

  /** Grid g with cell (r, c) set to v. */
  function Place(g: Grid, r: int, c: int, v: int): (h: Grid)
    requires InBounds(r, c)
    ensures forall x, y :: InBounds(x, y) ==> h[x][y] == if x == r && y == c then v else g[x][y]
  {
    g[r := g[r][c := v]]
  }

  /** Grids are equal when their cells are. */
  lemma SameCells(g: Grid, h: Grid)
    requires forall x, y :: InBounds(x, y) ==> g[x][y] == h[x][y]
    ensures g == h
  {
    forall x | 0 <= x < 9
      ensures g[x] == h[x]
    {
      assert forall y :: 0 <= y < 9 ==> g[x][y] == h[x][y];
    }
  }

  // ---------------------------------------------------------------------------
  // Safety predicates (what usedInRow, usedInCol, usedInBox, isSafeBox and isSafe decide)

  /** Some cell of row r holds v. */
  predicate RowHas(g: Grid, r: int, v: int)
    requires 0 <= r < BoardSize
  {
    exists c :: 0 <= c < BoardSize && g[r][c] == v
  }

  /** Some cell of column c holds v. */
  predicate ColHas(g: Grid, c: int, v: int)
    requires 0 <= c < BoardSize
  {
    exists r :: 0 <= r < BoardSize && g[r][c] == v
  }

  /** Cell (x, y) lies in the 3x3 block whose top-left corner is (r0, c0). */
  predicate InBlock(r0: int, c0: int, x: int, y: int) {
    r0 <= x < r0 + 3 && c0 <= y < c0 + 3
  }

  /** Some cell of the 3x3 block whose top-left corner is (r0, c0) holds v. */
  predicate BoxHas(g: Grid, r0: int, c0: int, v: int)
    requires 0 <= r0 <= BoardSize - 3 && 0 <= c0 <= BoardSize - 3
  {
    exists x, y :: r0 <= x < r0 + 3 && c0 <= y < c0 + 3 && g[x][y] == v
  }

  /** v appears neither in row r, nor in column c, nor in the box containing (r, c). */
  predicate IsSafeAt(g: Grid, r: int, c: int, v: int)
    requires InBounds(r, c)
  {
    !RowHas(g, r, v) && !ColHas(g, c, v) && !BoxHas(g, r - r % 3, c - c % 3, v)
  }

  /** The block with corner (r - r % 3, c - c % 3) is exactly the box that contains (r, c). */
  lemma BoxOfCell(g: Grid, r: int, c: int, v: int)
    requires InBounds(r, c)
    ensures BoxHas(g, r - r % 3, c - c % 3, v) <==>
            exists x, y :: InBounds(x, y) && SameBox(r, c, x, y) && g[x][y] == v
  {
    var r0, c0 := r - r % 3, c - c % 3;
    assert r0 == 3 * (r / 3) && c0 == 3 * (c / 3);
    if BoxHas(g, r0, c0, v) {
      var x, y :| r0 <= x < r0 + 3 && c0 <= y < c0 + 3 && g[x][y] == v;
      assert InBounds(x, y);
      assert x / 3 == r / 3 && y / 3 == c / 3;
    }
    if exists x, y :: InBounds(x, y) && SameBox(r, c, x, y) && g[x][y] == v {
      var x, y :| InBounds(x, y) && SameBox(r, c, x, y) && g[x][y] == v;
      assert InBlock(r0, c0, x, y);
    }
  }

  // ---------------------------------------------------------------------------
  // Valid grids

  /** No two distinct non-empty cells of a row, column or box hold the same value. */
  ghost predicate Consistent(g: Grid) {
    forall r1, c1, r2, c2 ::
      InBounds(r1, c1) && InBounds(r2, c2) && (r1 != r2 || c1 != c2) &&
      SameUnit(r1, c1, r2, c2) && g[r1][c1] != 0
      ==> g[r1][c1] != g[r2][c2]
  }

  /** A complete, valid Sudoku grid: every cell holds a digit and no unit repeats one. */
  ghost predicate Solved(g: Grid) {
    (forall r, c :: InBounds(r, c) ==> IsDigit(g[r][c])) && Consistent(g)
  }

  /** Placing a digit where the safety test accepts it keeps the grid consistent. */
  lemma SafePlacement(g: Grid, r: int, c: int, v: int)
    requires InBounds(r, c) && Consistent(g) && IsSafeAt(g, r, c, v)
    ensures Consistent(Place(g, r, c, v))
  {
    var h := Place(g, r, c, v);
    BoxOfCell(g, r, c, v);
    forall r1, c1, r2, c2 |
      InBounds(r1, c1) && InBounds(r2, c2) && (r1 != r2 || c1 != c2) &&
      SameUnit(r1, c1, r2, c2) && h[r1][c1] != 0
      ensures h[r1][c1] != h[r2][c2]
    {
      if r1 == r && c1 == c {
        assert h[r2][c2] == g[r2][c2];
        if r2 == r {
          assert !RowHas(g, r, v);
        } else if c2 == c {
          assert !ColHas(g, c, v);
        } else {
          assert SameBox(r, c, r2, c2);
        }
      } else if r2 == r && c2 == c {
        assert h[r1][c1] == g[r1][c1];
        if r1 == r {
          assert !RowHas(g, r, v);
        } else if c1 == c {
          assert !ColHas(g, c, v);
        } else {
          assert SameBox(r, c, r1, c1);
        }
      }
    }
  }

  /** The nine cells of the block with corner (r0, c0), row by row. */
  function BoxValues(g: Grid, r0: int, c0: int): (s: seq<int>)
    requires 0 <= r0 <= BoardSize - 3 && 0 <= c0 <= BoardSize - 3
    ensures |s| == 9
    ensures forall k :: 0 <= k < 9 ==> s[k] == g[r0 + k / 3][c0 + k % 3]
  {
    seq(9, k requires 0 <= k < 9 => g[r0 + k / 3][c0 + k % 3])
  }

  /** Cell (x, y) of the block is entry 3 * (x - r0) + (y - c0) of its values. */
  lemma BoxValuesAt(g: Grid, r0: int, c0: int, x: int, y: int)
    requires 0 <= r0 <= BoardSize - 3 && 0 <= c0 <= BoardSize - 3 && InBlock(r0, c0, x, y)
    ensures BoxValues(g, r0, c0)[3 * (x - r0) + (y - c0)] == g[x][y]
  {
    var m := 3 * (x - r0) + (y - c0);
    assert m / 3 == x - r0 && m % 3 == y - c0;
  }

  lemma BoxHasValues(g: Grid, r0: int, c0: int, v: int)
    requires 0 <= r0 <= BoardSize - 3 && 0 <= c0 <= BoardSize - 3
    ensures BoxHas(g, r0, c0, v) <==> v in BoxValues(g, r0, c0)
  {
    var s := BoxValues(g, r0, c0);
    if v in s {
      var k :| 0 <= k < 9 && s[k] == v;
      assert InBlock(r0, c0, r0 + k / 3, c0 + k % 3);
    }
    if BoxHas(g, r0, c0, v) {
      var x, y :| InBlock(r0, c0, x, y) && g[x][y] == v;
      BoxValuesAt(g, r0, c0, x, y);
    }
  }

  /** Every unit of a solved grid holds each digit 1..9, and holds it once. */
  lemma SolvedHasEveryDigit(g: Grid)
    requires Solved(g)
    ensures forall r, d :: 0 <= r < 9 && IsDigit(d) ==> RowHas(g, r, d)
    ensures forall c, d :: 0 <= c < 9 && IsDigit(d) ==> ColHas(g, c, d)
    ensures forall r0, c0, d :: 0 <= r0 <= 6 && 0 <= c0 <= 6 && r0 % 3 == 0 && c0 % 3 == 0 && IsDigit(d) ==>
              BoxHas(g, r0, c0, d)
    ensures forall r, c1, c2 :: InBounds(r, c1) && InBounds(r, c2) && g[r][c1] == g[r][c2] ==> c1 == c2
    ensures forall c, r1, r2 :: InBounds(r1, c) && InBounds(r2, c) && g[r1][c] == g[r2][c] ==> r1 == r2
    ensures forall r1, c1, r2, c2 ::
              InBounds(r1, c1) && InBounds(r2, c2) && SameBox(r1, c1, r2, c2) && g[r1][c1] == g[r2][c2]
              ==> r1 == r2 && c1 == c2
  {
    forall r, d | 0 <= r < 9 && IsDigit(d)
      ensures RowHas(g, r, d)
    {
      RowHasEveryDigit(g, r);
    }
    forall c, d | 0 <= c < 9 && IsDigit(d)
      ensures ColHas(g, c, d)
    {
      ColHasEveryDigit(g, c);
    }
    forall r0, c0, d | 0 <= r0 <= 6 && 0 <= c0 <= 6 && r0 % 3 == 0 && c0 % 3 == 0 && IsDigit(d)
      ensures BoxHas(g, r0, c0, d)
    {
      BoxHasEveryDigit(g, r0, c0);
    }
  }

  lemma RowHasEveryDigit(g: Grid, r: int)
    requires Solved(g) && 0 <= r < 9
    ensures forall d :: IsDigit(d) ==> RowHas(g, r, d)
  {
    forall k, l | 0 <= k < l < 9
      ensures g[r][k] != g[r][l]
    {
      assert SameUnit(r, k, r, l);
    }
    Digits.AllDigitsPresent(g[r], 9);
    forall d | IsDigit(d)
      ensures RowHas(g, r, d)
    {
      assert d in g[r];
      var c :| 0 <= c < 9 && g[r][c] == d;
    }
  }

  lemma ColHasEveryDigit(g: Grid, c: int)
    requires Solved(g) && 0 <= c < 9
    ensures forall d :: IsDigit(d) ==> ColHas(g, c, d)
  {
    var col := seq(9, x requires 0 <= x < 9 => g[x][c]);
    forall x, y | 0 <= x < y < 9
      ensures col[x] != col[y]
    {
      assert SameUnit(x, c, y, c);
    }
    Digits.AllDigitsPresent(col, 9);
    forall d | IsDigit(d)
      ensures ColHas(g, c, d)
    {
      assert d in col;
      var x :| 0 <= x < 9 && col[x] == d;
    }
  }

  lemma BoxHasEveryDigit(g: Grid, r0: int, c0: int)
    requires Solved(g) && 0 <= r0 <= 6 && 0 <= c0 <= 6 && r0 % 3 == 0 && c0 % 3 == 0
    ensures forall d :: IsDigit(d) ==> BoxHas(g, r0, c0, d)
  {
    SolvedBoxPermutation(g, r0, c0);
    BoxPermutationHasEveryDigit(g, r0, c0);
  }

  /** Each box of a solved grid holds nine distinct digits. */
  lemma SolvedBoxPermutation(g: Grid, r0: int, c0: int)
    requires Solved(g) && 0 <= r0 <= 6 && 0 <= c0 <= 6 && r0 % 3 == 0 && c0 % 3 == 0
    ensures BoxPermutation(g, r0, c0)
  {
    forall x1, y1, x2, y2 |
      InBlock(r0, c0, x1, y1) && InBlock(r0, c0, x2, y2) && (x1 != x2 || y1 != y2)
      ensures g[x1][y1] != g[x2][y2]
    {
      assert x1 / 3 == r0 / 3 == x2 / 3 && y1 / 3 == c0 / 3 == y2 / 3;
      assert InBounds(x1, y1) && InBounds(x2, y2) && SameUnit(x1, y1, x2, y2);
    }
    forall x, y | InBlock(r0, c0, x, y)
      ensures IsDigit(g[x][y])
    {
      assert InBounds(x, y);
    }
  }

  // ---------------------------------------------------------------------------
  // Diagonal seeding

  /** The 3x3 block with corner (r0, c0) holds nine distinct digits. */
  ghost predicate BoxPermutation(g: Grid, r0: int, c0: int)
    requires 0 <= r0 <= BoardSize - 3 && 0 <= c0 <= BoardSize - 3
  {
    (forall x, y :: InBlock(r0, c0, x, y) ==> IsDigit(g[x][y])) &&
    (forall x1, y1, x2, y2 ::
       InBlock(r0, c0, x1, y1) && InBlock(r0, c0, x2, y2) && (x1 != x2 || y1 != y2) ==>
         g[x1][y1] != g[x2][y2])
  }

  /** Nine distinct digits in a box are a permutation of 1..9. */
  lemma BoxPermutationHasEveryDigit(g: Grid, r0: int, c0: int)
    requires 0 <= r0 <= BoardSize - 3 && 0 <= c0 <= BoardSize - 3
    requires BoxPermutation(g, r0, c0)
    ensures forall d :: IsDigit(d) ==> BoxHas(g, r0, c0, d)
  {
    var s := BoxValues(g, r0, c0);
    forall k, l | 0 <= k < l < 9
      ensures s[k] != s[l]
    {
      assert InBlock(r0, c0, r0 + k / 3, c0 + k % 3) && InBlock(r0, c0, r0 + l / 3, c0 + l % 3);
    }
    assert Digits.InRange(s, 9) by {
      forall k | 0 <= k < 9
        ensures 1 <= s[k] <= 9
      {
        assert InBlock(r0, c0, r0 + k / 3, c0 + k % 3);
      }
    }
    Digits.AllDigitsPresent(s, 9);
    forall d | IsDigit(d)
      ensures BoxHas(g, r0, c0, d)
    {
      BoxHasValues(g, r0, c0, d);
    }
  }

  /** The first k cells of the block with corner (r0, c0), in row order, hold distinct
      digits and the remaining ones are empty: the state of fillBox after k cells. */
  ghost predicate BoxFilledUpTo(g: Grid, r0: int, c0: int, k: int)
    requires 0 <= r0 <= BoardSize - 3 && 0 <= c0 <= BoardSize - 3
  {
    var s := BoxValues(g, r0, c0);
    (forall m :: 0 <= m < k && m < 9 ==> IsDigit(s[m])) &&
    (forall m :: k <= m < 9 && 0 <= m ==> s[m] == 0) &&
    (forall m, n :: 0 <= m < n < k && n < 9 ==> s[m] != s[n])
  }

  lemma BoxFillStart(g: Grid, r0: int, c0: int)
    requires 0 <= r0 <= BoardSize - 3 && 0 <= c0 <= BoardSize - 3
    requires forall x, y :: InBlock(r0, c0, x, y) ==> g[x][y] == 0
    ensures BoxFilledUpTo(g, r0, c0, 0)
  {
    var s := BoxValues(g, r0, c0);
    forall m | 0 <= m < 9
      ensures s[m] == 0
    {
      assert InBlock(r0, c0, r0 + m / 3, c0 + m % 3);
    }
  }

  /** While a box cell is still empty, some digit is absent from the box: the rejection
      sampling of a box cell always has a digit to accept. */
  lemma BoxHasRoom(g: Grid, r0: int, c0: int, k: int)
    requires 0 <= r0 <= BoardSize - 3 && 0 <= c0 <= BoardSize - 3 && 0 <= k < 9
    requires BoxFilledUpTo(g, r0, c0, k)
    ensures exists d :: IsDigit(d) && !BoxHas(g, r0, c0, d)
  {
    var s := BoxValues(g, r0, c0);
    Digits.MissingDigit(s[..k], 9);
    var d :| 1 <= d <= 9 && d !in s[..k];
    forall x | 0 <= x < 9
      ensures s[x] != d
    {
      if x < k {
        assert s[..k][x] == s[x];
      }
    }
    BoxHasValues(g, r0, c0, d);
  }

  /** Writing a digit the box does not hold into its next empty cell extends the filled
      prefix by one. */
  lemma BoxFillStep(g: Grid, r0: int, c0: int, i: int, j: int, v: int)
    requires 0 <= r0 <= BoardSize - 3 && 0 <= c0 <= BoardSize - 3 && 0 <= i < 3 && 0 <= j < 3
    requires BoxFilledUpTo(g, r0, c0, 3 * i + j) && IsDigit(v) && !BoxHas(g, r0, c0, v)
    ensures BoxFilledUpTo(Place(g, r0 + i, c0 + j, v), r0, c0, 3 * i + j + 1)
  {
    var k := 3 * i + j;
    assert k / 3 == i && k % 3 == j;
    var h := Place(g, r0 + i, c0 + j, v);
    var s, t := BoxValues(g, r0, c0), BoxValues(h, r0, c0);
    BoxHasValues(g, r0, c0, v);
    forall m | 0 <= m < 9
      ensures t[m] == if m == k then v else s[m]
    {
      assert m != k ==> (m / 3 != k / 3 || m % 3 != k % 3);
    }
  }

  lemma BoxFillDone(g: Grid, r0: int, c0: int)
    requires 0 <= r0 <= BoardSize - 3 && 0 <= c0 <= BoardSize - 3
    requires BoxFilledUpTo(g, r0, c0, 9)
    ensures BoxPermutation(g, r0, c0)
  {
    var s := BoxValues(g, r0, c0);
    forall x, y | InBlock(r0, c0, x, y)
      ensures IsDigit(g[x][y])
    {
      BoxValuesAt(g, r0, c0, x, y);
    }
    forall x1, y1, x2, y2 |
      InBlock(r0, c0, x1, y1) && InBlock(r0, c0, x2, y2) && (x1 != x2 || y1 != y2)
      ensures g[x1][y1] != g[x2][y2]
    {
      var m, n := 3 * (x1 - r0) + (y1 - c0), 3 * (x2 - r0) + (y2 - c0);
      BoxValuesAt(g, r0, c0, x1, y1);
      BoxValuesAt(g, r0, c0, x2, y2);
      assert m != n;
      if m < n {
        assert s[m] != s[n];
      } else {
        assert s[n] != s[m];
      }
    }
  }

  /** A box's permutation property depends on the cells of that box only. */
  lemma BoxPermutationFrame(g: Grid, h: Grid, r0: int, c0: int)
    requires 0 <= r0 <= BoardSize - 3 && 0 <= c0 <= BoardSize - 3
    requires BoxPermutation(g, r0, c0)
    requires forall x, y :: InBlock(r0, c0, x, y) ==> h[x][y] == g[x][y]
    ensures BoxPermutation(h, r0, c0)
  {
  }

  /** The 3x3 boxes at (0, 0), (3, 3) and (6, 6) are permutations of 1..9 and every
      other cell is empty. */
  ghost predicate DiagonalSeeded(g: Grid) {
    BoxPermutation(g, 0, 0) && BoxPermutation(g, 3, 3) && BoxPermutation(g, 6, 6) &&
    forall r, c :: InBounds(r, c) && !InDiagonalBox(r, c) ==> g[r][c] == 0
  }

  /** A grid with only its diagonal boxes filled is not solved: the cell (0, 3) is empty. */
  lemma SeededNotSolved(g: Grid)
    requires DiagonalSeeded(g)
    ensures !Solved(g)
  {
    assert InBounds(0, 3) && !InDiagonalBox(0, 3);
    assert !IsDigit(g[0][3]);
  }

  /** Every cell is empty, as in a newly allocated board. */
  ghost predicate Empty(g: Grid) {
    forall r, c :: InBounds(r, c) ==> g[r][c] == 0
  }

  /** The non-diagonal cells at or after row-major position p are empty. */
  ghost predicate ZeroFrom(g: Grid, p: int) {
    forall r, c :: InBounds(r, c) && !InDiagonalBox(r, c) && p <= Index(r, c) ==> g[r][c] == 0
  }

  /** The diagonal-box cells and the cells before row-major position p hold digits. */
  ghost predicate FilledBefore(g: Grid, p: int) {
    forall r, c :: InBounds(r, c) && (InDiagonalBox(r, c) || Index(r, c) < p) ==> IsDigit(g[r][c])
  }

  /** The diagonal boxes at (k, k) for k < n are permutations of 1..9 and every other
      cell is empty: the state of fillDiagonal before it fills the box at (n, n). */
  ghost predicate SeededUpTo(g: Grid, n: int) {
    BoxesSeeded(g, n) && EmptyBeyond(g, n)
  }

  ghost predicate BoxesSeeded(g: Grid, n: int) {
    forall k :: 0 <= k < n && k <= 6 && k % 3 == 0 ==> BoxPermutation(g, k, k)
  }

  /** Every cell except those of the diagonal boxes above row n is empty. */
  ghost predicate EmptyBeyond(g: Grid, n: int) {
    forall r, c :: InBounds(r, c) && !(InDiagonalBox(r, c) && r < n) ==> g[r][c] == 0
  }

  lemma SeedStart(g: Grid)
    requires Empty(g)
    ensures SeededUpTo(g, 0)
  {
  }

  /** Filling the box at (n, n) and nothing else advances the seeding by one box. */
  lemma SeedStep(g: Grid, h: Grid, n: int)
    requires n == 0 || n == 3 || n == 6
    requires SeededUpTo(g, n)
    requires BoxPermutation(h, n, n)
    requires forall x, y :: InBounds(x, y) && !InBlock(n, n, x, y) ==> h[x][y] == g[x][y]
    ensures SeededUpTo(h, n + 3)
  {
    SeedStepBoxes(g, h, n);
    SeedStepEmpty(g, h, n);
  }

  lemma SeedStepBoxes(g: Grid, h: Grid, n: int)
    requires n == 0 || n == 3 || n == 6
    requires BoxesSeeded(g, n) && BoxPermutation(h, n, n)
    requires forall x, y :: InBounds(x, y) && !InBlock(n, n, x, y) ==> h[x][y] == g[x][y]
    ensures BoxesSeeded(h, n + 3)
  {
    forall k | 0 <= k < n && k % 3 == 0
      ensures BoxPermutation(h, k, k)
    {
      BoxPermutationFrame(g, h, k, k);
    }
  }

  lemma SeedStepEmpty(g: Grid, h: Grid, n: int)
    requires n == 0 || n == 3 || n == 6
    requires EmptyBeyond(g, n)
    requires forall x, y :: InBounds(x, y) && !InBlock(n, n, x, y) ==> h[x][y] == g[x][y]
    ensures EmptyBeyond(h, n + 3)
  {
  }

  /** The box fillDiagonal fills next is still empty. */
  lemma SeedEmptyBox(g: Grid, n: int)
    requires 0 <= n <= 6 && SeededUpTo(g, n)
    ensures forall x, y :: InBlock(n, n, x, y) ==> g[x][y] == 0
  {
    forall x, y | InBlock(n, n, x, y)
      ensures g[x][y] == 0
    {
      assert InBounds(x, y) && x >= n;
    }
  }

  lemma SeedDone(g: Grid)
    requires SeededUpTo(g, 9)
    ensures DiagonalSeeded(g)
  {
    assert BoxPermutation(g, 0, 0) && BoxPermutation(g, 3, 3) && BoxPermutation(g, 6, 6);
  }

  /** The diagonal boxes share no row, column or box, so the seeding is conflict-free,
      and it is the state the backtracking search expects at its first cell (0, 3). */
  lemma DiagonalSeedingReady(g: Grid)
    requires DiagonalSeeded(g)
    ensures Consistent(g)
    ensures FilledBefore(g, Index(0, 3)) && ZeroFrom(g, Index(0, 3))
  {
    forall r1, c1, r2, c2 |
      InBounds(r1, c1) && InBounds(r2, c2) && (r1 != r2 || c1 != c2) &&
      SameUnit(r1, c1, r2, c2) && g[r1][c1] != 0
      ensures g[r1][c1] != g[r2][c2]
    {
      if g[r2][c2] != 0 {
        assert InDiagonalBox(r1, c1) && InDiagonalBox(r2, c2);
        assert SameBox(r1, c1, r2, c2);
        var r0 := 3 * (r1 / 3);
        assert InBlock(r0, r0, r1, c1) && InBlock(r0, r0, r2, c2);
        assert r0 == 0 || r0 == 3 || r0 == 6;
      }
    }
    forall r, c | InBounds(r, c) && (InDiagonalBox(r, c) || Index(r, c) < Index(0, 3))
      ensures IsDigit(g[r][c])
    {
      var r0 := 3 * (r / 3);
      assert InBlock(r0, r0, r, c);
      assert r0 == 0 || r0 == 3 || r0 == 6;
    }
  }

  // ---------------------------------------------------------------------------
  // Traversal order of the backtracking search

  /** Where the search goes next: past the last cell, or into cell (row, col). */
  datatype Cursor = Finished | At(row: int, col: int)

  /** The positions the search is entered at: the root call (0, 3), or the position
      just right of a cell it has filled. */
  predicate ResumePoint(i: int, j: int) {
    (i == 0 && j == 3) || (0 <= i < BoardSize && 1 <= j <= BoardSize && !InDiagonalBox(i, j - 1))
  }

  /** The index adjustment at the head of fillRemaining: the next cell to fill is the first
      cell outside the diagonal boxes at or after position (i, j), or Finished if there is none.
      A position just past the end of a row first wraps to the start of the next row. */
  function Normalize(i: int, j: int): (r: Cursor)
    requires ResumePoint(i, j)
    ensures r.At? ==> InBounds(r.row, r.col) && !InDiagonalBox(r.row, r.col)
    ensures r.At? ==> Index(i, j) <= Index(r.row, r.col)
    ensures r.At? ==> forall x, y :: InBounds(x, y) && Index(i, j) <= Index(x, y) < Index(r.row, r.col) ==>
                        InDiagonalBox(x, y)
    ensures r.Finished? ==> forall x, y :: InBounds(x, y) && Index(i, j) <= Index(x, y) ==> InDiagonalBox(x, y)
  {
    if j >= BoardSize && i < BoardSize - 1 then
      Settle(i + 1, 0)
    else if i >= BoardSize && j >= BoardSize then
      // a resume point is never below the last row
      assert false; Finished
    else
      Settle(i, j)
  }

  /** The box-dependent part of the adjustment, for a cell (i, j) of the grid that is either
      outside the diagonal boxes or the first column of its row's diagonal box: rows 0-2 skip
      to column 3, rows 3-5 skip the box at columns 3-5, and rows 6-8 end at column 6 and
      move to the next row, or finish after the last one. */
  function Settle(i: int, j: int): (r: Cursor)
    requires InBounds(i, j) && (!InDiagonalBox(i, j) || j % 3 == 0)
    ensures r.At? ==> InBounds(r.row, r.col) && !InDiagonalBox(r.row, r.col)
    ensures r.At? ==> Index(i, j) <= Index(r.row, r.col)
    ensures r.At? ==> forall x, y :: InBounds(x, y) && Index(i, j) <= Index(x, y) < Index(r.row, r.col) ==>
                        InDiagonalBox(x, y)
    ensures r.Finished? ==> forall x, y :: InBounds(x, y) && Index(i, j) <= Index(x, y) ==> InDiagonalBox(x, y)
  {
    if i < 3 then
      At(i, if j < 3 then 3 else j)
    else if i < BoardSize - 3 then
      At(i, if j == (i / 3) * 3 then j + 3 else j)
    else if j == BoardSize - 3 then
      if i + 1 >= BoardSize then Finished else At(i + 1, 0)
    else
      At(i, j)
  }

  /** Every cell at row-major positions p..q-1 lies in a diagonal box. */
  ghost predicate DiagonalBetween(p: int, q: int) {
    forall x, y :: InBounds(x, y) && p <= Index(x, y) < q ==> InDiagonalBox(x, y)
  }

  /** h agrees with g on the diagonal boxes and on every cell before position p. */
  ghost predicate FixedBefore(g: Grid, h: Grid, p: int) {
    forall x, y :: InBounds(x, y) && (InDiagonalBox(x, y) || Index(x, y) < p) ==> h[x][y] == g[x][y]
  }

  /** Every cell outside the diagonal boxes at or after position p holds a digit. */
  ghost predicate FilledFrom(g: Grid, p: int) {
    forall x, y :: InBounds(x, y) && !InDiagonalBox(x, y) && p <= Index(x, y) ==> IsDigit(g[x][y])
  }

  /** Tentatively placing digit v at the next cell (r, c) after position p: the cell was
      empty (so resetting it to 0 undoes the placement), the cells after it stay empty, and
      when v passed the safety test the grid stays consistent with one more cell filled. */
  lemma PlaceNext(g: Grid, p: int, r: int, c: int, v: int)
    requires InBounds(r, c) && !InDiagonalBox(r, c) && p <= Index(r, c) && DiagonalBetween(p, Index(r, c))
    requires IsDigit(v) && ZeroFrom(g, p)
    ensures g[r][c] == 0
    ensures ZeroFrom(Place(g, r, c, v), Index(r, c) + 1)
    ensures FilledBefore(g, p) && Consistent(g) && IsSafeAt(g, r, c, v) ==>
              FilledBefore(Place(g, r, c, v), Index(r, c) + 1) && Consistent(Place(g, r, c, v))
  {
    if FilledBefore(g, p) && Consistent(g) && IsSafeAt(g, r, c, v) {
      SafePlacement(g, r, c, v);
    }
  }

  /** A successful search from the cell after (r, c), started with v placed at (r, c),
      is a successful search from position p. */
  lemma SuccessLifts(g: Grid, h: Grid, p: int, r: int, c: int, v: int)
    requires InBounds(r, c) && !InDiagonalBox(r, c) && p <= Index(r, c) && DiagonalBetween(p, Index(r, c))
    requires IsDigit(v)
    requires FixedBefore(Place(g, r, c, v), h, Index(r, c) + 1) && FilledFrom(h, Index(r, c) + 1)
    ensures FixedBefore(g, h, p) && FilledFrom(h, p)
  {
    var g1 := Place(g, r, c, v);
    forall x, y | InBounds(x, y) && !InDiagonalBox(x, y) && p <= Index(x, y)
      ensures IsDigit(h[x][y])
    {
      if Index(x, y) == Index(r, c) {
        assert x == r && y == c;
        assert h[x][y] == g1[r][c];
      }
    }
  }

  /** Skipping diagonal-box cells from position p to q changes nothing about the search:
      the empty cells, the filled cells, and what a search from q fixes and fills. */
  lemma SkipSeeded(g: Grid, h: Grid, p: int, q: int)
    requires p <= q && DiagonalBetween(p, q)
    ensures ZeroFrom(g, p) ==> ZeroFrom(g, q)
    ensures FilledBefore(g, p) ==> FilledBefore(g, q)
    ensures FixedBefore(g, h, q) ==> FixedBefore(g, h, p)
    ensures FilledFrom(h, q) ==> FilledFrom(h, p)
  {
  }

  /** Past the last cell, a grid whose fixed cells were filled and consistent is solved. */
  lemma FinishedSolved(g: Grid, p: int)
    requires DiagonalBetween(p, 81)
    ensures FilledFrom(g, p)
    ensures FilledBefore(g, p) && Consistent(g) ==> Solved(g)
  {
  }

  /** The cells the search fills, in the order it first reaches them, from entry (i, j). */
  ghost function Traversal(i: int, j: int): seq<(int, int)>
    requires ResumePoint(i, j)
  {
    Visit(Normalize(i, j))
  }

  /** A cursor that points at a cell points at one the search fills. */
  ghost predicate OnFreeCell(n: Cursor) {
    n.At? ==> InBounds(n.row, n.col) && !InDiagonalBox(n.row, n.col)
  }

  /** How many positions are left from the cursor to the end of the grid. */
  ghost function Remaining(n: Cursor): int {
    if n.At? then 81 - Index(n.row, n.col) else 0
  }

  /** The cells the search fills once it has reached cursor n: n's cell, then the cells
      from the position right of it. */
  ghost function Visit(n: Cursor): seq<(int, int)>
    requires OnFreeCell(n)
    decreases Remaining(n)
  {
    match n
    case Finished => []
    case At(r, c) => [(r, c)] + Visit(Normalize(r, c + 1))
  }

  lemma VisitAt(n: Cursor)
    requires n.At? && InBounds(n.row, n.col) && !InDiagonalBox(n.row, n.col)
    ensures Visit(n) == [(n.row, n.col)] + Visit(Normalize(n.row, n.col + 1))
  {
  }

  ghost predicate StrictlyRowMajor(s: seq<(int, int)>) {
    forall k, l :: 0 <= k < l < |s| ==> Index(s[k].0, s[k].1) < Index(s[l].0, s[l].1)
  }

  /** From cursor n the search fills exactly the cells outside the diagonal boxes at or
      after n's cell, each once, in row-major order. */
  lemma {:induction false} VisitOrder(n: Cursor)
    requires OnFreeCell(n)
    ensures forall x, y :: (x, y) in Visit(n) <==>
              n.At? && InBounds(x, y) && !InDiagonalBox(x, y) && Index(n.row, n.col) <= Index(x, y)
    ensures StrictlyRowMajor(Visit(n))
    decreases Remaining(n)
  {
    match n
    case Finished =>
    case At(r, c) =>
      var m := Normalize(r, c + 1);
      var t := Visit(m);
      VisitOrder(m);
      var s := [(r, c)] + t;
      VisitAt(n);
      assert Index(r, c + 1) == Index(r, c) + 1;
      forall x, y
        ensures (x, y) in s <==> InBounds(x, y) && !InDiagonalBox(x, y) && Index(r, c) <= Index(x, y)
      {
        if InBounds(x, y) && Index(x, y) == Index(r, c) {
          assert x == r && y == c;
        }
      }
      PrependInOrder(r, c, t);
  }

  /** A cell that comes before every cell of a row-major sequence can be put in front of it. */
  lemma PrependInOrder(r: int, c: int, t: seq<(int, int)>)
    requires StrictlyRowMajor(t)
    requires forall x, y :: (x, y) in t ==> Index(r, c) < Index(x, y)
    ensures StrictlyRowMajor([(r, c)] + t)
  {
    var s := [(r, c)] + t;
    forall k, l | 0 <= k < l < |s|
      ensures Index(s[k].0, s[k].1) < Index(s[l].0, s[l].1)
    {
      if k == 0 {
        assert s[l] == t[l - 1] && (t[l - 1].0, t[l - 1].1) in t;
      } else {
        assert s[k] == t[k - 1] && s[l] == t[l - 1];
      }
    }
  }

  /** Entered at a resume point, the search fills exactly the cells outside the diagonal
      boxes from that position on, each once, in row-major order. */
  lemma SearchOrder(i: int, j: int)
    requires ResumePoint(i, j)
    ensures forall x, y :: (x, y) in Traversal(i, j) <==>
              InBounds(x, y) && !InDiagonalBox(x, y) && Index(i, j) <= Index(x, y)
    ensures StrictlyRowMajor(Traversal(i, j))
  {
    VisitOrder(Normalize(i, j));
  }

  /** Every cell outside the diagonal boxes lies at or after the root position (0, 3), so
      by SearchOrder the search started there fills all 54 of them. */
  lemma FreeCellsFollowRoot()
    ensures forall x, y :: InBounds(x, y) && !InDiagonalBox(x, y) ==> Index(0, 3) <= Index(x, y)
  {
    forall x, y | InBounds(x, y) && !InDiagonalBox(x, y)
      ensures Index(0, 3) <= Index(x, y)
    {
      if x == 0 {
        assert y / 3 != 0;
      }
    }
  }

  /** The root call fillRemaining(0, 3) visits exactly the cells outside the diagonal boxes,
      each once and in row-major order. */
  lemma RootTraversal()
    ensures forall x, y :: (x, y) in Traversal(0, 3) <==> InBounds(x, y) && !InDiagonalBox(x, y)
    ensures StrictlyRowMajor(Traversal(0, 3))
  {
    SearchOrder(0, 3);
    FreeCellsFollowRoot();
  }

  // ---------------------------------------------------------------------------
  // Clues

  function CountNonZero(s: seq<int>): (n: nat)
    ensures n <= |s|
  {
    if s == [] then 0 else (if s[0] != 0 then 1 else 0) + CountNonZero(s[1..])
  }

  function CountRows(rows: seq<seq<int>>): nat {
    if rows == [] then 0 else CountNonZero(rows[0]) + CountRows(rows[1..])
  }

  /** The number of non-empty cells of g. */
  function Clues(g: Grid): nat {
    CountRows(g)
  }

  /** Every non-empty cell of the puzzle holds the solution's value there. */
  ghost predicate Derived(puzzle: Grid, solution: Grid) {
    forall r, c :: InBounds(r, c) ==> puzzle[r][c] == 0 || puzzle[r][c] == solution[r][c]
  }

  lemma {:induction false} CountClear(s: seq<int>, k: int)
    requires 0 <= k < |s| && s[k] != 0
    ensures CountNonZero(s[k := 0]) == CountNonZero(s) - 1
  {
    if k > 0 {
      CountClear(s[1..], k - 1);
      assert s[k := 0][1..] == s[1..][k - 1 := 0];
    } else {
      assert s[k := 0][1..] == s[1..];
    }
  }

  lemma {:induction false} CountRowsUpdate(rows: seq<seq<int>>, r: int, row: seq<int>)
    requires 0 <= r < |rows|
    ensures CountRows(rows[r := row]) == CountRows(rows) - CountNonZero(rows[r]) + CountNonZero(row)
  {
    if r > 0 {
      CountRowsUpdate(rows[1..], r - 1, row);
      assert rows[r := row][1..] == rows[1..][r - 1 := row];
    } else {
      assert rows[r := row][1..] == rows[1..];
    }
  }

  /** Emptying a non-empty cell removes exactly one clue. */
  lemma ClearClue(g: Grid, r: int, c: int)
    requires InBounds(r, c) && g[r][c] != 0
    ensures Clues(Place(g, r, c, 0)) == Clues(g) - 1
  {
    CountClear(g[r], c);
    CountRowsUpdate(g, r, g[r][c := 0]);
  }

  lemma {:induction false} NonZeroWitness(s: seq<int>)
    requires CountNonZero(s) > 0
    ensures exists k :: 0 <= k < |s| && s[k] != 0
  {
    if s[0] == 0 {
      NonZeroWitness(s[1..]);
      var k :| 0 <= k < |s| - 1 && s[1..][k] != 0;
      assert s[k + 1] != 0;
    }
  }

  lemma {:induction false} RowWitness(rows: seq<seq<int>>)
    requires CountRows(rows) > 0
    ensures exists r :: 0 <= r < |rows| && CountNonZero(rows[r]) > 0
  {
    if CountNonZero(rows[0]) == 0 {
      RowWitness(rows[1..]);
      var r :| 0 <= r < |rows| - 1 && CountNonZero(rows[1..][r]) > 0;
      assert CountNonZero(rows[r + 1]) > 0;
    }
  }

  /** A grid with a clue left has a non-empty cell: the rejection sampling of clue removal
      always has a cell to accept. */
  lemma SomeClue(g: Grid)
    requires Clues(g) > 0
    ensures exists r, c :: InBounds(r, c) && g[r][c] != 0
  {
    RowWitness(g);
    var r :| 0 <= r < 9 && CountNonZero(g[r]) > 0;
    NonZeroWitness(g[r]);
    var c :| 0 <= c < 9 && g[r][c] != 0;
    assert InBounds(r, c);
  }

  lemma {:induction false} CountFull(s: seq<int>)
    requires forall k :: 0 <= k < |s| ==> s[k] != 0
    ensures CountNonZero(s) == |s|
  {
    if s != [] {
      CountFull(s[1..]);
    }
  }

  lemma {:induction false} CountRowsFull(rows: seq<seq<int>>)
    requires forall r :: 0 <= r < |rows| ==> |rows[r]| == 9 && forall k :: 0 <= k < 9 ==> rows[r][k] != 0
    ensures CountRows(rows) == 9 * |rows|
  {
    if rows != [] {
      CountFull(rows[0]);
      CountRowsFull(rows[1..]);
    }
  }

  /** A grid without an empty cell has 81 clues. */
  lemma FullClues(g: Grid)
    requires forall r, c :: InBounds(r, c) ==> g[r][c] != 0
    ensures Clues(g) == BoardSize * BoardSize
  {
    CountRowsFull(g);
  }
}
