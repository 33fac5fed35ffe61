/**
 * The digit-placement (sudoku) solver: a 9×9 board of cells 0..9 (0 = empty),
 * the three checkers that decide whether a candidate may go in a cell, the
 * pre-check of the givens, the in-place backtracking search, and the text
 * parser and printer around them.
 */
module Sudoku {
  import opened Wrappers
  import opened Sequences

  /** SUDOKU_SIZE: the board has this many rows, columns and boxes. */
  const Size: nat := 9

  /** The board as the source stores it, a vector of rows. */
  type Grid = seq<seq<nat>>

  /** The message `build` fails with. */
  const ReadError: string := "Failed to read puzzle. For sudoku, ensure there are 81 digits total."

  // ---------------------------------------------------------------------------
  // Board geometry and the rules of the puzzle
  // ---------------------------------------------------------------------------

  /** Nine rows of nine cells. */
  predicate IsBoard(g: Grid) {
    |g| == Size && forall r :: 0 <= r < |g| ==> |g[r]| == Size
  }

  predicate InBoard(r: int, c: int) {
    0 <= r < 9 && 0 <= c < 9
  }

  /** Row-major position of a cell; `fill_board` visits cells in this order. */
  function Index(r: nat, c: nat): nat {
    r * 9 + c
  }

  /** First row (or column) of the 3×3 box holding row (or column) `i`. */
  function BoxStart(i: nat): nat {
    i - i % 3
  }

  /** Two different cells that share a row, a column or a box. */
  predicate Peers(r1: nat, c1: nat, r2: nat, c2: nat) {
    (r1 != r2 || c1 != c2) &&
    (r1 == r2 || c1 == c2 || (BoxStart(r1) == BoxStart(r2) && BoxStart(c1) == BoxStart(c2)))
  }

  /** Cell (r1, c1) holds a non-zero value that its peer (r2, c2) holds too. */
  predicate Clash(g: Grid, r1: nat, c1: nat, r2: nat, c2: nat)
    requires IsBoard(g) && InBoard(r1, c1) && InBoard(r2, c2)
  {
    Peers(r1, c1, r2, c2) && g[r1][c1] != 0 && g[r1][c1] == g[r2][c2]
  }

  /** No two peers hold the same non-zero value. */
  ghost predicate Consistent(g: Grid)
    requires IsBoard(g)
  {
    forall r1: nat, c1: nat, r2: nat, c2: nat
      :: InBoard(r1, c1) && InBoard(r2, c2) ==> !Clash(g, r1, c1, r2, c2)
  }

  /** Every cell holds a decimal digit (0 = empty). */
  ghost predicate DigitCells(g: Grid)
    requires IsBoard(g)
  {
    forall r: nat, c: nat :: InBoard(r, c) ==> g[r][c] <= 9
  }

  /** No cell at or after row-major position `from` is empty. */
  ghost predicate FilledFrom(g: Grid, from: nat)
    requires IsBoard(g)
  {
    forall r: nat, c: nat :: InBoard(r, c) && Index(r, c) >= from ==> g[r][c] != 0
  }

  /** Every non-zero cell of `g` keeps its value in `s`. */
  ghost predicate Extends(s: Grid, g: Grid)
    requires IsBoard(s) && IsBoard(g)
  {
    forall r: nat, c: nat :: InBoard(r, c) && g[r][c] != 0 ==> s[r][c] == g[r][c]
  }

  /** `s` is a solved board that keeps the givens of `g`. */
  ghost predicate IsSolutionOf(s: Grid, g: Grid) {
    IsBoard(s) && IsBoard(g) && FilledFrom(s, 0) && DigitCells(s) && Consistent(s) && Extends(s, g)
  }

  /** Every cell that is empty in `g0` clashes with no peer in `g`. */
  ghost predicate WrittenCellsClashFree(g: Grid, g0: Grid)
    requires IsBoard(g) && IsBoard(g0)
  {
    forall r1: nat, c1: nat, r2: nat, c2: nat
      :: InBoard(r1, c1) && InBoard(r2, c2) && g0[r1][c1] == 0 ==> !Clash(g, r1, c1, r2, c2)
  }

  /** No peer of (row, col) holds `v`. */
  ghost predicate PeersFree(g: Grid, row: nat, col: nat, v: nat)
    requires IsBoard(g) && InBoard(row, col)
  {
    forall r: nat, c: nat :: InBoard(r, c) && Peers(row, col, r, c) ==> g[r][c] != v
  }

  /** The board with cell (r, c) set to `v`: `self.board[r][c] = v`. */
  function Set(g: Grid, r: nat, c: nat, v: nat): (g': Grid)
    requires IsBoard(g) && InBoard(r, c)
    ensures IsBoard(g') && g'[r][c] == v
    ensures forall i: nat, j: nat :: InBoard(i, j) && (i != r || j != c) ==> g'[i][j] == g[i][j]
  {
    var updated: seq<nat> := g[r][c := v];
    g[r := updated]
  }

  /** Two boards with the same cells are the same board. */
  lemma SameBoard(a: Grid, b: Grid)
    requires IsBoard(a) && IsBoard(b)
    requires forall r: nat, c: nat :: InBoard(r, c) ==> a[r][c] == b[r][c]
    ensures a == b
  {
    forall r | 0 <= r < 9 ensures a[r] == b[r] {
      assert forall c :: 0 <= c < 9 ==> a[r][c] == b[r][c];
    }
  }

  /** Resetting a written empty cell to 0 gives back the board it was written on. */
  lemma ResetRestores(g: Grid, r: nat, c: nat, n: nat)
    requires IsBoard(g) && InBoard(r, c) && g[r][c] == 0
    ensures Set(Set(g, r, c, n), r, c, 0) == g
    ensures Set(g, r, c, 0) == g
  {
    assert g[r][c := 0] == g[r];
    assert Set(g, r, c, n)[r][c := 0] == g[r];
  }

  lemma PeersSymmetric(r1: nat, c1: nat, r2: nat, c2: nat)
    ensures Peers(r1, c1, r2, c2) == Peers(r2, c2, r1, c1)
  {
  }

  /** A cell lies inside the box that starts at its BoxStart. */
  lemma BoxStartBounds(i: nat)
    ensures BoxStart(i) <= i < BoxStart(i) + 3
  {
  }

  // ---------------------------------------------------------------------------
  // The checkers
  // ---------------------------------------------------------------------------

  /** `safe_row`: `v` is absent from row `row`, or its FIRST occurrence is at `col`. */
  function SafeRow(g: Grid, row: nat, col: nat, v: nat): bool
    requires IsBoard(g) && row < 9
  {
    var p := Position(g[row], v);
    p.None? || p == Some(col)
  }

  /** `filter(|row| row[col] == v).count()`: how many rows hold `v` in column `col`. */
  function CountInColumn(rows: Grid, col: nat, v: nat): (n: nat)
    requires forall i :: 0 <= i < |rows| ==> col < |rows[i]|
    ensures n <= |rows|
    ensures n == 0 <==> forall i :: 0 <= i < |rows| ==> rows[i][col] != v
  {
    if rows == [] then 0
    else (if rows[0][col] == v then 1 else 0) + CountInColumn(rows[1..], col, v)
  }

  /** `safe_col`: no row holds `v` in column `col`, or the cell itself holds `v`. */
  function SafeCol(g: Grid, row: nat, col: nat, v: nat): bool
    requires IsBoard(g) && InBoard(row, col)
  {
    CountInColumn(g, col, v) == 0 || g[row][col] == v
  }

  /** What `safe_matrix` decides: no cell of the box that is on neither the
      row nor the column of (row, col) holds `v`. */
  predicate BoxClear(g: Grid, row: nat, col: nat, v: nat)
    requires IsBoard(g) && InBoard(row, col)
  {
    forall r: nat, c: nat
      :: (BoxStart(row) <= r < BoxStart(row) + 3 && BoxStart(col) <= c < BoxStart(col) + 3 && r != row && c != col)
         ==> g[r][c] != v
  }

  /** What `safe_space` decides: all three checkers accept `v` at (row, col). */
  predicate SafeAt(g: Grid, row: nat, col: nat, v: nat)
    requires IsBoard(g) && InBoard(row, col)
  {
    SafeRow(g, row, col, v) && SafeCol(g, row, col, v) && BoxClear(g, row, col, v)
  }

  /** What `is_valid` decides: every non-zero cell passes `safe_space` with its own value. */
  ghost predicate PassesPrecheck(g: Grid)
    requires IsBoard(g)
  {
    forall r: nat, c: nat :: InBoard(r, c) && g[r][c] != 0 ==> SafeAt(g, r, c, g[r][c])
  }

  /** `safe_row` only looks at the first occurrence of `v` in the row. */
  lemma SafeRowFirstOccurrence(g: Grid, row: nat, col: nat, v: nat)
    requires IsBoard(g) && row < 9
    ensures SafeRow(g, row, col, v) <==>
      (forall c :: 0 <= c < 9 ==> g[row][c] != v) ||
      (col < 9 && g[row][col] == v && forall c :: 0 <= c < col ==> g[row][c] != v)
  {
    var p := Position(g[row], v);
    if p.Some? {
      var k := p.value;
      if k != col {
        assert g[row][k] == v;
        if col < k {
          assert g[row][..k][col] == g[row][col];
        }
      }
    }
  }

  /** `safe_col` holds iff the column lacks `v` or the cell itself holds `v`;
      so it always holds for a cell's own value. */
  lemma SafeColOwnValue(g: Grid, row: nat, col: nat, v: nat)
    requires IsBoard(g) && InBoard(row, col)
    ensures SafeCol(g, row, col, v) <==> (forall r :: 0 <= r < 9 ==> g[r][col] != v) || g[row][col] == v
    ensures SafeCol(g, row, col, g[row][col])
  {
  }

  /** On an empty cell the three quirky checkers together are exactly the rule of
      the puzzle: a non-zero candidate passes iff no peer holds it. */
  lemma SafeOnEmptyCell(g: Grid, row: nat, col: nat, v: nat)
    requires IsBoard(g) && InBoard(row, col) && g[row][col] == 0 && v != 0
    ensures SafeAt(g, row, col, v) <==> PeersFree(g, row, col, v)
  {
    BoxStartBounds(row);
    BoxStartBounds(col);
    if SafeAt(g, row, col, v) {
      assert v !in g[row];
      forall r: nat, c: nat | InBoard(r, c) && Peers(row, col, r, c) ensures g[r][c] != v {
        if r == row {
          assert g[row][c] in g[row];
        } else if c != col {
          BoxStartBounds(r);
          BoxStartBounds(c);
        }
      }
    }
    if PeersFree(g, row, col, v) {
      forall c | 0 <= c < 9 ensures g[row][c] != v {
        if c != col { assert Peers(row, col, row, c); }
      }
      forall r | 0 <= r < 9 ensures g[r][col] != v {
        if r != row { assert Peers(row, col, r, col); }
      }
      forall r: nat, c: nat | BoxStart(row) <= r < BoxStart(row) + 3 && BoxStart(col) <= c < BoxStart(col) + 3 &&
        r != row && c != col
        ensures g[r][c] != v
      {
        assert Peers(row, col, r, c);
      }
    }
  }

  // ---------------------------------------------------------------------------
  // Facts the search relies on
  // ---------------------------------------------------------------------------

  /** Every cell a consistent board agrees on is safe on the partial board it extends. */
  lemma SolutionValueIsSafe(s: Grid, g: Grid, r: nat, c: nat)
    requires IsBoard(g) && InBoard(r, c)
    ensures IsSolutionOf(s, g) && g[r][c] == 0 ==> SafeAt(g, r, c, s[r][c])
  {
    if IsSolutionOf(s, g) && g[r][c] == 0 {
      var v := s[r][c];
      forall i: nat, j: nat | InBoard(i, j) && Peers(r, c, i, j) ensures g[i][j] != v {
        assert !Clash(s, r, c, i, j);
      }
      SafeOnEmptyCell(g, r, c, v);
    }
  }

  /** A solution that agrees with a write is still a solution of the written board. */
  lemma SolutionOfWrite(s: Grid, g: Grid, r: nat, c: nat, n: nat)
    requires IsBoard(g) && InBoard(r, c)
    ensures IsSolutionOf(s, g) && s[r][c] == n ==> IsSolutionOf(s, Set(g, r, c, n))
  {
  }

  /** A candidate the checkers reject, or whose write leaves no solution, is the
      value of no solution at that cell. */
  lemma CandidateRuledOut(g: Grid, r: nat, c: nat, n: nat)
    requires IsBoard(g) && InBoard(r, c) && g[r][c] == 0
    requires !SafeAt(g, r, c, n) || !(exists s :: IsSolutionOf(s, Set(g, r, c, n)))
    ensures forall s :: IsSolutionOf(s, g) ==> s[r][c] != n
  {
    forall s | IsSolutionOf(s, g) ensures s[r][c] != n {
      SolutionOfWrite(s, g, r, c, n);
      SolutionValueIsSafe(s, g, r, c);
    }
  }

  /** Writing a candidate that no peer holds, then filling the rest clash-free,
      leaves every originally empty cell clash-free. */
  lemma WriteKeepsClashFree(entry: Grid, f: Grid, r: nat, c: nat, n: nat)
    requires IsBoard(entry) && IsBoard(f) && InBoard(r, c) && entry[r][c] == 0 && n != 0
    requires PeersFree(entry, r, c, n) && f[r][c] == n
    requires Extends(f, Set(entry, r, c, n)) && WrittenCellsClashFree(f, Set(entry, r, c, n))
    ensures WrittenCellsClashFree(f, entry)
  {
    var written := Set(entry, r, c, n);
    forall r1: nat, c1: nat, r2: nat, c2: nat | InBoard(r1, c1) && InBoard(r2, c2) && entry[r1][c1] == 0
      ensures !Clash(f, r1, c1, r2, c2)
    {
      if r1 == r && c1 == c && Peers(r, c, r2, c2) && written[r2][c2] == 0 {
        PeersSymmetric(r, c, r2, c2);
        assert !Clash(f, r2, c2, r, c);
      }
    }
  }

  /** What a successful search from the cell after (r, c) on the board with `n`
      written at (r, c) means for the board as it was before the write: the
      earlier cells and the givens are kept, only digits are written, everything
      from (r, c) on is filled, and every originally empty cell is clash-free. */
  lemma WriteSucceeds(entry: Grid, f: Grid, r: nat, c: nat, n: nat)
    requires IsBoard(entry) && IsBoard(f) && InBoard(r, c) && entry[r][c] == 0 && 1 <= n <= 9
    requires PeersFree(entry, r, c, n)
    requires forall i: nat, j: nat :: InBoard(i, j) && Index(i, j) < Index(r, c) + 1 ==> f[i][j] == Set(entry, r, c, n)[i][j]
    requires Extends(f, Set(entry, r, c, n))
    requires forall i: nat, j: nat :: InBoard(i, j) ==> f[i][j] == Set(entry, r, c, n)[i][j] || 1 <= f[i][j] <= 9
    requires FilledFrom(f, Index(r, c) + 1) && WrittenCellsClashFree(f, Set(entry, r, c, n))
    ensures forall i: nat, j: nat :: InBoard(i, j) && Index(i, j) < Index(r, c) ==> f[i][j] == entry[i][j]
    ensures Extends(f, entry)
    ensures forall i: nat, j: nat :: InBoard(i, j) ==> f[i][j] == entry[i][j] || 1 <= f[i][j] <= 9
    ensures FilledFrom(f, Index(r, c)) && WrittenCellsClashFree(f, entry)
  {
    assert f[r][c] == n by {
      assert Index(r, c) < Index(r, c) + 1;
    }
    WriteKeepsClashFree(entry, f, r, c, n);
  }

  /** Filling empty cells without clashes keeps a consistent board consistent. */
  lemma ClashFreeFillKeepsConsistency(g: Grid, g0: Grid)
    requires IsBoard(g) && IsBoard(g0) && Consistent(g0) && Extends(g, g0)
    requires WrittenCellsClashFree(g, g0)
    ensures Consistent(g)
  {
    forall r1: nat, c1: nat, r2: nat, c2: nat | InBoard(r1, c1) && InBoard(r2, c2)
      ensures !Clash(g, r1, c1, r2, c2)
    {
      if g0[r1][c1] != 0 && g0[r2][c2] != 0 {
        assert !Clash(g0, r1, c1, r2, c2);
      } else if g0[r1][c1] != 0 {
        PeersSymmetric(r1, c1, r2, c2);
        assert !Clash(g, r2, c2, r1, c1);
      }
    }
  }

  /** A board that has a solution has consistent givens. */
  lemma SolvableMeansConsistent(s: Grid, g: Grid)
    requires IsSolutionOf(s, g)
    ensures Consistent(g)
  {
    forall r1: nat, c1: nat, r2: nat, c2: nat | InBoard(r1, c1) && InBoard(r2, c2)
      ensures !Clash(g, r1, c1, r2, c2)
    {
      assert !Clash(s, r1, c1, r2, c2);
    }
  }

  // ---------------------------------------------------------------------------
  // What the pre-check accepts
  // ---------------------------------------------------------------------------

  /** The peers `is_valid` actually compares: the same row, or the same box on a
      different row AND a different column. Same-column pairs are never compared. */
  predicate Watched(r1: nat, c1: nat, r2: nat, c2: nat) {
    (r1 != r2 || c1 != c2) &&
    (r1 == r2 || (r1 != r2 && c1 != c2 && BoxStart(r1) == BoxStart(r2) && BoxStart(c1) == BoxStart(c2)))
  }

  /** No two watched cells hold the same non-zero value. */
  ghost predicate NoWatchedClash(g: Grid)
    requires IsBoard(g)
  {
    forall r1: nat, c1: nat, r2: nat, c2: nat
      :: InBoard(r1, c1) && InBoard(r2, c2) && Watched(r1, c1, r2, c2) ==> !Clash(g, r1, c1, r2, c2)
  }

  /** A repeat later in a row fails `safe_row` at the later cell. */
  lemma RowRepeatFailsSafeRow(g: Grid, r: nat, c1: nat, c2: nat)
    requires IsBoard(g) && r < 9 && c1 < c2 < 9
    ensures g[r][c1] == g[r][c2] ==> !SafeRow(g, r, c2, g[r][c2])
  {
    SafeRowFirstOccurrence(g, r, c2, g[r][c2]);
  }

  /** A repeat in the box off both lines fails `safe_matrix`. */
  lemma BoxRepeatFailsBoxClear(g: Grid, r1: nat, c1: nat, r2: nat, c2: nat)
    requires IsBoard(g) && InBoard(r1, c1) && InBoard(r2, c2) && Watched(r1, c1, r2, c2) && r1 != r2
    ensures g[r1][c1] == g[r2][c2] ==> !BoxClear(g, r1, c1, g[r1][c1])
  {
    BoxStartBounds(r2);
    BoxStartBounds(c2);
  }

  /** A board passing the pre-check has no watched clash. */
  lemma PrecheckSound(g: Grid)
    requires IsBoard(g) && PassesPrecheck(g)
    ensures NoWatchedClash(g)
  {
    forall r1: nat, c1: nat, r2: nat, c2: nat
      | InBoard(r1, c1) && InBoard(r2, c2) && Watched(r1, c1, r2, c2)
      ensures !Clash(g, r1, c1, r2, c2)
    {
      if r1 != r2 {
        BoxRepeatFailsBoxClear(g, r1, c1, r2, c2);
      } else if c1 < c2 {
        RowRepeatFailsSafeRow(g, r1, c1, c2);
      } else {
        RowRepeatFailsSafeRow(g, r1, c2, c1);
      }
    }
  }

  /** A board with no watched clash passes the pre-check. */
  lemma PrecheckComplete(g: Grid)
    requires IsBoard(g) && NoWatchedClash(g)
    ensures PassesPrecheck(g)
  {
    forall r: nat, c: nat | InBoard(r, c) && g[r][c] != 0 ensures SafeAt(g, r, c, g[r][c]) {
      var v := g[r][c];
      forall j | 0 <= j < c ensures g[r][j] != v {
        assert !Clash(g, r, c, r, j);
      }
      SafeRowFirstOccurrence(g, r, c, v);
      SafeColOwnValue(g, r, c, v);
      forall i: nat, j: nat | BoxStart(r) <= i < BoxStart(r) + 3 && BoxStart(c) <= j < BoxStart(c) + 3 && i != r && j != c
        ensures g[i][j] != v
      {
        BoxStartBounds(i);
        BoxStartBounds(j);
        assert !Clash(g, r, c, i, j);
      }
    }
  }

  /** The pre-check passes iff no two watched cells hold the same non-zero value:
      rows and box-diagonals are checked, columns are not. */
  lemma PrecheckMeans(g: Grid)
    requires IsBoard(g)
    ensures PassesPrecheck(g) <==> NoWatchedClash(g)
  {
    if PassesPrecheck(g) { PrecheckSound(g); }
    if NoWatchedClash(g) { PrecheckComplete(g); }
  }

  /** Consistent givens always pass the pre-check. */
  lemma ConsistentPassesPrecheck(g: Grid)
    requires IsBoard(g) && Consistent(g)
    ensures PassesPrecheck(g)
  {
    PrecheckMeans(g);
  }

  /** A board is consistent iff every non-zero cell differs from all its peers. */
  lemma ConsistentMeansPeersFree(g: Grid)
    requires IsBoard(g)
    ensures Consistent(g) <==> forall r: nat, c: nat :: InBoard(r, c) && g[r][c] != 0 ==> PeersFree(g, r, c, g[r][c])
  {
    if forall r: nat, c: nat :: InBoard(r, c) && g[r][c] != 0 ==> PeersFree(g, r, c, g[r][c]) {
      forall r1: nat, c1: nat, r2: nat, c2: nat | InBoard(r1, c1) && InBoard(r2, c2)
        ensures !Clash(g, r1, c1, r2, c2)
      {
        if g[r1][c1] != 0 {
          assert PeersFree(g, r1, c1, g[r1][c1]);
        }
      }
    }
    if Consistent(g) {
      forall r: nat, c: nat | InBoard(r, c) && g[r][c] != 0 ensures PeersFree(g, r, c, g[r][c]) {
        forall i: nat, j: nat | InBoard(i, j) && Peers(r, c, i, j) ensures g[i][j] != g[r][c] {
          assert !Clash(g, r, c, i, j);
        }
      }
    }
  }

  /** Clearing a cell does not change what its peers hold. */
  lemma PeersFreeIgnoresOwnCell(g: Grid, r: nat, c: nat, v: nat)
    requires IsBoard(g) && InBoard(r, c)
    ensures PeersFree(Set(g, r, c, 0), r, c, v) <==> PeersFree(g, r, c, v)
  {
  }

  // ---------------------------------------------------------------------------
  // Witnesses for the pre-check's blind spot, and the all-threes board
  // ---------------------------------------------------------------------------

  /** Nine copies of the row 1, 2, ..., 9: every column repeats one value. */
  function RepeatedRows(): (g: Grid)
    ensures IsBoard(g) && DigitCells(g)
  {
    seq(9, _ => [1, 2, 3, 4, 5, 6, 7, 8, 9])
  }

  /** The repeated-rows board passes `is_valid` although no column is consistent. */
  lemma PrecheckMissesColumnRepeats()
    ensures PassesPrecheck(RepeatedRows()) && FilledFrom(RepeatedRows(), 0)
    ensures !Consistent(RepeatedRows())
    ensures !exists s :: IsSolutionOf(s, RepeatedRows())
  {
    var g := RepeatedRows();
    forall r: nat, c: nat | InBoard(r, c) ensures g[r][c] == c + 1 {
      assert g[r] == [1, 2, 3, 4, 5, 6, 7, 8, 9];
    }
    assert NoWatchedClash(g);
    PrecheckMeans(g);
    assert Clash(g, 0, 0, 1, 0);
    if exists s :: IsSolutionOf(s, g) {
      var s :| IsSolutionOf(s, g);
      SolvableMeansConsistent(s, g);
    }
  }

  /** Eighty-one threes, the board of the unsolvable example. */
  function AllThrees(): (g: Grid)
    ensures IsBoard(g) && DigitCells(g)
  {
    seq(9, _ => seq(9, _ => 3))
  }

  /** The all-threes board fails the pre-check: (0, 1) repeats the 3 of (0, 0). */
  lemma AllThreesFailsPrecheck()
    ensures !PassesPrecheck(AllThrees())
  {
    var g := AllThrees();
    RowRepeatFailsSafeRow(g, 0, 0, 1);
  }

  // ---------------------------------------------------------------------------
  // Reading a board: `build`
  // ---------------------------------------------------------------------------

  /** `char::is_whitespace`: the Unicode White_Space property. */
  predicate IsWhitespace(ch: char) {
    var n := ch as int;
    (9 <= n <= 13) || n == 0x20 || n == 0x85 || n == 0xA0 || n == 0x1680 || (0x2000 <= n <= 0x200A) ||
    n == 0x2028 || n == 0x2029 || n == 0x202F || n == 0x205F || n == 0x3000
  }

  /** The characters `char::to_digit(10)` accepts. */
  predicate IsDigit(ch: char) {
    '0' <= ch <= '9'
  }

  /** `contents.retain(|c| !c.is_whitespace())`. */
  function StripWhitespace(s: string): (r: string)
    ensures |r| <= |s|
    ensures forall i :: 0 <= i < |r| ==> !IsWhitespace(r[i])
  {
    if s == [] then []
    else (if IsWhitespace(s[0]) then [] else [s[0]]) + StripWhitespace(s[1..])
  }

  /** `filter_map(|c| c.to_digit(10))`: the values of the decimal digits of `s`, in order. */
  function Digits(s: string): (d: seq<nat>)
    ensures |d| <= |s|
    ensures forall i :: 0 <= i < |d| ==> d[i] <= 9
  {
    if s == [] then []
    else (if IsDigit(s[0]) then [s[0] as nat - '0' as nat] else []) + Digits(s[1..])
  }

  lemma {:induction false} DigitsAppend(a: string, b: string)
    ensures Digits(a + b) == Digits(a) + Digits(b)
  {
    if a == [] {
      assert a + b == b;
    } else {
      assert (a + b)[1..] == a[1..] + b;
      DigitsAppend(a[1..], b);
    }
  }

  /** Removing whitespace first never changes the digits that are read. */
  lemma {:induction false} DigitsIgnoreWhitespace(s: string)
    ensures Digits(StripWhitespace(s)) == Digits(s)
  {
    if s != [] {
      DigitsIgnoreWhitespace(s[1..]);
      DigitsAppend(if IsWhitespace(s[0]) then [] else [s[0]], StripWhitespace(s[1..]));
      if !IsWhitespace(s[0]) {
        assert [s[0]][1..] == [];
      }
    }
  }

  /** All rows of a board laid end to end. */
  function Flatten(rows: Grid): seq<nat> {
    if rows == [] then [] else rows[0] + Flatten(rows[1..])
  }

  /** `chunks(9)`: consecutive runs of nine values; only the last may be shorter. */
  function Chunks(d: seq<nat>): (rows: Grid)
    ensures |rows| == (|d| + 8) / 9
    ensures forall i :: 0 <= i < |rows| ==> rows[i] == d[i * 9 .. if i * 9 + 9 <= |d| then i * 9 + 9 else |d|]
    decreases |d|
  {
    if |d| <= 9 then (if d == [] then [] else [d])
    else
      var rest := Chunks(d[9..]);
      [d[..9]] + rest
  }

  /** `build`: after whitespace is removed, exactly 81 decimal digits must remain
      (every other character is dropped); they fill the board row by row. */
  function Build(contents: string): (r: Result<Grid, string>)
    ensures r.Ok? <==> |Digits(contents)| == 81
    ensures r.Err? ==> r.error == ReadError
    ensures r.Ok? ==> IsBoard(r.value) && DigitCells(r.value)
    ensures r.Ok? ==> forall i: nat, j: nat :: InBoard(i, j) ==> r.value[i][j] == Digits(contents)[Index(i, j)]
  {
    DigitsIgnoreWhitespace(contents);
    var digits := Digits(StripWhitespace(contents));
    if |digits| == Size * Size then Ok(Chunks(digits)) else Err(ReadError)
  }

  /** `build` sees only the digits of its input. */
  lemma BuildSeesDigits(x: string, y: string)
    requires Digits(x) == Digits(y)
    ensures Build(x) == Build(y)
  {
    DigitsIgnoreWhitespace(x);
    DigitsIgnoreWhitespace(y);
  }

  /** A character that is not a decimal digit is dropped silently. */
  lemma BuildDropsNonDigits(a: string, ch: char, b: string)
    requires !IsDigit(ch)
    ensures Build(a + [ch] + b) == Build(a + b)
  {
    DigitsAppend(a + [ch], b);
    DigitsAppend(a, [ch]);
    DigitsAppend(a, b);
    assert [ch][1..] == [];
    assert Digits([ch]) == [];
    BuildSeesDigits(a + [ch] + b, a + b);
  }

  // ---------------------------------------------------------------------------
  // Printing a board: `format`
  // ---------------------------------------------------------------------------

  function DigitChar(d: nat): char
    requires d <= 9
  {
    (48 + d) as char
  }

  /** `Display for u32`: the decimal digits, most significant first. */
  function ShowNat(n: nat): string
    decreases n
  {
    if n <= 9 then [DigitChar(n)] else ShowNat(n / 10) + [DigitChar(n % 10)]
  }

  /** The cells separated by ", ". */
  function ShowCells(row: seq<nat>): string {
    if |row| == 0 then ""
    else if |row| == 1 then ShowNat(row[0])
    else ShowNat(row[0]) + ", " + ShowCells(row[1..])
  }

  /** `format!("{:?}", row)`: the Debug form of a `Vec<u32>`, "[a, b, ...]". */
  function ShowRow(row: seq<nat>): string {
    "[" + ShowCells(row) + "]"
  }

  /** `format`: the rows' Debug forms joined with "\n", with no trailing newline. */
  function Format(g: Grid): string {
    if |g| == 0 then ""
    else if |g| == 1 then ShowRow(g[0])
    else ShowRow(g[0]) + "\n" + Format(g[1..])
  }

  /** The value of a sequence of decimal digits, most significant first. */
  function DecimalValue(ds: seq<nat>): nat {
    if ds == [] then 0 else DecimalValue(ds[..|ds| - 1]) * 10 + ds[|ds| - 1]
  }

  /** A rendered number reads back as itself. */
  lemma {:induction false} ShowNatReadsBack(n: nat)
    ensures Digits(ShowNat(n)) != [] && DecimalValue(Digits(ShowNat(n))) == n
    ensures n <= 9 ==> Digits(ShowNat(n)) == [n]
    decreases n
  {
    assert [DigitChar(n % 10)][1..] == [];
    if n > 9 {
      ShowNatReadsBack(n / 10);
      DigitsAppend(ShowNat(n / 10), [DigitChar(n % 10)]);
      var ds := Digits(ShowNat(n));
      assert ds[..|ds| - 1] == Digits(ShowNat(n / 10));
    }
  }

  function Count(s: string, ch: char): nat {
    if s == [] then 0 else (if s[0] == ch then 1 else 0) + Count(s[1..], ch)
  }

  lemma {:induction false} CountAppend(a: string, b: string, ch: char)
    ensures Count(a + b, ch) == Count(a, ch) + Count(b, ch)
  {
    if a == [] {
      assert a + b == b;
    } else {
      assert (a + b)[1..] == a[1..] + b;
      CountAppend(a[1..], b, ch);
    }
  }

  /** A digit rendering has no newline and no digits besides the cell values. */
  lemma {:induction false} ShowCellsFacts(row: seq<nat>)
    requires forall i :: 0 <= i < |row| ==> row[i] <= 9
    ensures Digits(ShowCells(row)) == row
    ensures Count(ShowCells(row), '\n') == 0
  {
    if |row| >= 1 {
      ShowNatReadsBack(row[0]);
      assert ShowNat(row[0]) == [DigitChar(row[0])];
      assert [DigitChar(row[0])][1..] == [];
      if |row| >= 2 {
        ShowCellsFacts(row[1..]);
        DigitsAppend(ShowNat(row[0]) + ", ", ShowCells(row[1..]));
        DigitsAppend(ShowNat(row[0]), ", ");
        CountAppend(ShowNat(row[0]) + ", ", ShowCells(row[1..]), '\n');
        CountAppend(ShowNat(row[0]), ", ", '\n');
        assert row == [row[0]] + row[1..];
      }
    }
  }

  lemma ShowRowFacts(row: seq<nat>)
    requires forall i :: 0 <= i < |row| ==> row[i] <= 9
    ensures Digits(ShowRow(row)) == row
    ensures Count(ShowRow(row), '\n') == 0
  {
    ShowCellsFacts(row);
    DigitsAppend("[" + ShowCells(row), "]");
    DigitsAppend("[", ShowCells(row));
    CountAppend("[" + ShowCells(row), "]", '\n');
    CountAppend("[", ShowCells(row), '\n');
  }

  /** The digits of the printed board are its cells in row-major order. */
  lemma {:induction false} FormatDigits(g: Grid)
    requires forall r :: 0 <= r < |g| ==> forall c :: 0 <= c < |g[r]| ==> g[r][c] <= 9
    ensures Digits(Format(g)) == Flatten(g)
  {
    if g != [] {
      var head := ShowRow(g[0]);
      ShowRowFacts(g[0]);
      if |g| == 1 {
        assert Flatten(g) == g[0] + Flatten([]);
      } else {
        var tail := Format(g[1..]);
        assert Format(g) == (head + "\n") + tail;
        FormatDigits(g[1..]);
        DigitsAppend(head + "\n", tail);
        DigitsAppend(head, "\n");
        assert Digits("\n") == [];
        assert Digits(head + "\n") == g[0];
        assert Flatten(g) == g[0] + Flatten(g[1..]);
      }
    }
  }

  /** The printed rows are separated by exactly |g| - 1 newlines, with none after the last. */
  lemma {:induction false} FormatLines(g: Grid)
    requires forall r :: 0 <= r < |g| ==> forall c :: 0 <= c < |g[r]| ==> g[r][c] <= 9
    ensures g != [] ==> Count(Format(g), '\n') == |g| - 1
    ensures g != [] ==> Format(g)[|Format(g)| - 1] == ']'
  {
    if g != [] {
      ShowRowFacts(g[0]);
      if |g| > 1 {
        FormatLines(g[1..]);
        CountAppend(ShowRow(g[0]) + "\n", Format(g[1..]), '\n');
        CountAppend(ShowRow(g[0]), "\n", '\n');
      }
    }
  }

  lemma {:induction false} FlattenBoard(g: Grid)
    requires forall r :: 0 <= r < |g| ==> |g[r]| == 9
    ensures |Flatten(g)| == 9 * |g|
    ensures forall r, c :: 0 <= r < |g| && 0 <= c < 9 ==> Flatten(g)[r * 9 + c] == g[r][c]
  {
    if g != [] {
      FlattenBoard(g[1..]);
      forall r, c | 1 <= r < |g| && 0 <= c < 9 ensures Flatten(g)[r * 9 + c] == g[r][c] {
        assert Flatten(g)[r * 9 + c] == Flatten(g[1..])[(r - 1) * 9 + c];
      }
    }
  }

  /** The printed board reads back as the same board: `build(format(b)) == b`. */
  lemma FormatReadsBack(g: Grid)
    requires IsBoard(g) && DigitCells(g)
    ensures Build(Format(g)) == Ok(g)
  {
    FormatDigits(g);
    FlattenBoard(g);
    var r := Build(Format(g));
    assert r.Ok?;
    forall i: nat, j: nat | InBoard(i, j) ensures r.value[i][j] == g[i][j] {
      assert Digits(Format(g))[Index(i, j)] == Flatten(g)[i * 9 + j] == g[i][j];
    }
    SameBoard(r.value, g);
  }

  // ---------------------------------------------------------------------------
  // The solver object: `struct Sudoku { board: Vec<Vec<u32>> }`
  // ---------------------------------------------------------------------------

  class Sudoku {
    var board: Grid

    predicate Valid()
      reads this
    {
      IsBoard(board)
    }

    constructor (board: Grid)
      requires IsBoard(board)
      ensures Valid() && this.board == board
    {
      this.board := board;
    }

    /** `safe_matrix`: scans the 3×3 box of (row, col) and rejects `candidate`
        if a box cell on neither the row nor the column holds it. */
    method SafeMatrix(row: nat, col: nat, candidate: nat) returns (safe: bool)
      requires Valid() && InBoard(row, col)
      ensures safe == BoxClear(board, row, col, candidate)
    {
      var startRow, startCol := row - row % 3, col - col % 3;
      for r := startRow to startRow + 3
        invariant forall i: nat, j: nat :: startRow <= i < r && startCol <= j < startCol + 3 && i != row && j != col ==> board[i][j] != candidate
      {
        for c := startCol to startCol + 3
          invariant forall i: nat, j: nat :: startRow <= i < r && startCol <= j < startCol + 3 && i != row && j != col ==> board[i][j] != candidate
          invariant forall j: nat :: startCol <= j < c && r != row && j != col ==> board[r][j] != candidate
        {
          if board[r][c] == candidate && r != row && c != col {
            return false;
          }
        }
      }
      return true;
    }

    /** `safe_space`: all three checkers accept `candidate` at (row, col). */
    method SafeSpace(row: nat, col: nat, candidate: nat) returns (safe: bool)
      requires Valid() && InBoard(row, col)
      ensures safe == SafeAt(board, row, col, candidate)
      ensures board[row][col] == 0 && candidate != 0 ==> (safe <==> PeersFree(board, row, col, candidate))
    {
      var rowSafe := SafeRow(board, row, col, candidate);
      var colSafe := SafeCol(board, row, col, candidate);
      var matrixSafe := SafeMatrix(row, col, candidate);
      safe := rowSafe && colSafe && matrixSafe;
      if board[row][col] == 0 && candidate != 0 {
        SafeOnEmptyCell(board, row, col, candidate);
      }
    }

    /** `is_valid`: every non-zero cell passes `safe_space` with its own value;
        zero cells are skipped. Nothing is modified. */
    method IsValid() returns (valid: bool)
      requires Valid()
      ensures valid == PassesPrecheck(board)
      ensures valid == NoWatchedClash(board)
    {
      for row := 0 to 9
        invariant forall r: nat, c: nat :: r < row && c < 9 && board[r][c] != 0 ==> SafeAt(board, r, c, board[r][c])
      {
        for col := 0 to 9
          invariant forall r: nat, c: nat :: r < row && c < 9 && board[r][c] != 0 ==> SafeAt(board, r, c, board[r][c])
          invariant forall c: nat :: c < col && board[row][c] != 0 ==> SafeAt(board, row, c, board[row][c])
        {
          var filled := board[row][col];
          var safe := SafeSpace(row, col, filled);
          if !safe && filled != 0 {
            PrecheckMeans(board);
            return false;
          }
        }
      }
      PrecheckMeans(board);
      return true;
    }
  
    /** `fill_board`: the backtracking search from (row, col) on, in row-major order.
        Non-zero cells are skipped; an empty cell gets the candidates 1..9 in turn,
        each one that `safe_space` accepts is written and the search recurses; a
        candidate that fails is reset to 0. */
    method FillBoard(row: nat, col: nat) returns (ok: bool)
      requires Valid() && row < 9 && col <= 9
      modifies this
      decreases 81 - Index(row, col)
      ensures Valid()
      // backtracking restores the board it was entered with
      ensures !ok ==> board == old(board)
      // cells before (row, col) and non-zero cells are never changed
      ensures forall r: nat, c: nat :: InBoard(r, c) && Index(r, c) < Index(row, col) ==> board[r][c] == old(board)[r][c]
      ensures Extends(board, old(board))
      ensures forall r: nat, c: nat :: InBoard(r, c) ==> board[r][c] == old(board)[r][c] || 1 <= board[r][c] <= 9
      // on success nothing from (row, col) on is empty, and every written value
      // differs from all its peers
      ensures ok ==> FilledFrom(board, Index(row, col))
      ensures ok ==> WrittenCellsClashFree(board, old(board))
      // the search is complete: it succeeds whenever the rest is already filled
      // or a solution of the board exists
      ensures FilledFrom(old(board), Index(row, col)) ==> ok
      ensures (exists s :: IsSolutionOf(s, old(board))) ==> ok
    {
      var r, c := row, col;
      if c == 9 {
        if r == 8 {
          return true;
        }
        r, c := r + 1, 0;
      }
      if board[r][c] > 0 {
        ok := FillBoard(r, c + 1);
        return;
      }
      ghost var entry := board;
      for n := 1 to 10
        invariant board == entry
        invariant forall s :: IsSolutionOf(s, entry) ==> s[r][c] >= n
      {
        ghost var written := Set(entry, r, c, n);
        var safe := SafeSpace(r, c, n);
        if safe {
          board := Set(board, r, c, n);
          ok := FillBoard(r, c + 1);
          if ok {
            WriteSucceeds(entry, board, r, c, n);
            return;
          }
        }
        ResetRestores(entry, r, c, n);
        board := Set(board, r, c, 0);
        CandidateRuledOut(entry, r, c, n);
      }
      return false;
    }

    /** The pre-check `is_valid` evidently intends: each non-zero cell is checked by
        `safe_space` with its own value on the board where that cell is cleared,
        so that columns and every box-mate are compared too. */
    method IsValidChecked() returns (valid: bool)
      requires Valid()
      ensures valid == Consistent(board)
    {
      for row := 0 to 9
        invariant forall r: nat, c: nat :: r < row && c < 9 && board[r][c] != 0 ==> PeersFree(board, r, c, board[r][c])
      {
        for col := 0 to 9
          invariant forall r: nat, c: nat :: r < row && c < 9 && board[r][c] != 0 ==> PeersFree(board, r, c, board[r][c])
          invariant forall c: nat :: c < col && board[row][c] != 0 ==> PeersFree(board, row, c, board[row][c])
        {
          var filled := board[row][col];
          if filled != 0 {
            var cleared := Set(board, row, col, 0);
            SafeOnEmptyCell(cleared, row, col, filled);
            PeersFreeIgnoresOwnCell(board, row, col, filled);
            if !SafeAt(cleared, row, col, filled) {
              ConsistentMeansPeersFree(board);
              return false;
            }
          }
        }
      }
      ConsistentMeansPeersFree(board);
      return true;
    }

    /** `solve` with the corrected pre-check: it succeeds exactly when the board has
        a solution, and then leaves one on the board. */
    method SolveChecked() returns (solved: bool)
      requires Valid()
      modifies this
      ensures Valid()
      ensures !solved ==> board == old(board)
      ensures DigitCells(old(board)) ==> (solved <==> exists s :: IsSolutionOf(s, old(board)))
      ensures DigitCells(old(board)) && solved ==> IsSolutionOf(board, old(board))
    {
      var valid := IsValidChecked();
      if !valid {
        if exists s :: IsSolutionOf(s, board) {
          var s :| IsSolutionOf(s, board);
          SolvableMeansConsistent(s, board);
        }
        return false;
      }
      solved := FillBoard(0, 0);
      if solved {
        ClashFreeFillKeepsConsistency(board, old(board));
        if DigitCells(old(board)) {
          assert IsSolutionOf(board, old(board));
        }
      }
    }

    /** `solve`: the pre-check and, only if it passes, the search from (0, 0). */
    method Solve() returns (solved: bool)
      requires Valid()
      modifies this
      ensures Valid()
      ensures !solved ==> board == old(board)
      ensures !PassesPrecheck(old(board)) ==> !solved
      ensures solved ==> FilledFrom(board, 0) && Extends(board, old(board))
      ensures solved ==> WrittenCellsClashFree(board, old(board))
      ensures solved && Consistent(old(board)) ==> Consistent(board)
      ensures DigitCells(old(board)) ==> DigitCells(board)
      ensures PassesPrecheck(old(board)) && FilledFrom(old(board), 0) ==> solved
      ensures (exists s :: IsSolutionOf(s, old(board))) ==> solved
    {
      var valid := IsValid();
      if !valid {
        return false;
      }
      solved := FillBoard(0, 0);
      if solved && Consistent(old(board)) {
        ClashFreeFillKeepsConsistency(board, old(board));
      }
      if exists s :: IsSolutionOf(s, old(board)) {
        var s :| IsSolutionOf(s, old(board));
        SolvableMeansConsistent(s, old(board));
        ConsistentPassesPrecheck(old(board));
      }
    }
  }
}
