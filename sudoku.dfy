/**
 * Sudoku grid validation (src/array_sudoku.cc): a shared table of nine "found" flags
 * is cleared, marked for each value of a 3x3 block, a row or a column, and then
 * checked for a missing digit.
 */
module Sudoku {
  predicate IsDigit(v: int)
  {
    1 <= v <= 9
  }

  /** Every cell holds a digit and every digit 1..9 appears among the cells. */
  predicate HasAllDigits(cells: seq<int>)
  {
    (forall k :: 0 <= k < |cells| ==> IsDigit(cells[k])) &&
    (forall d :: 1 <= d <= 9 ==> d in cells)
  }

  /** A 9x9 grid, the only shape the validator indexes safely. */
  predicate IsNineByNine(grid: seq<seq<int>>)
  {
    |grid| == 9 && forall i :: 0 <= i < 9 ==> |grid[i]| == 9
  }

  /** The nine values of the 3x3 block with upper-left corner (x, y), row by row. */
  function Block(grid: seq<seq<int>>, x: nat, y: nat): (cells: seq<int>)
    requires IsNineByNine(grid) && x <= 6 && y <= 6
    ensures |cells| == 9
  {
    grid[x][y..y + 3] + grid[x + 1][y..y + 3] + grid[x + 2][y..y + 3]
  }

  /** Cell (i, j) of the block is its element 3 * i + j. */
  lemma BlockCell(grid: seq<seq<int>>, x: nat, y: nat, i: nat, j: nat)
    requires IsNineByNine(grid) && x <= 6 && y <= 6 && i < 3 && j < 3
    ensures Block(grid, x, y)[i * 3 + j] == grid[x + i][y + j]
  {
    var r0, r1, r2 := grid[x][y..y + 3], grid[x + 1][y..y + 3], grid[x + 2][y..y + 3];
    assert Block(grid, x, y) == r0 + r1 + r2;
    if i == 0 {
      assert (r0 + r1 + r2)[j] == r0[j];
    } else if i == 1 {
      assert (r0 + r1 + r2)[3 + j] == r1[j];
    } else {
      assert (r0 + r1 + r2)[6 + j] == r2[j];
    }
  }

  /** The nine values of column c, top to bottom. */
  function Column(grid: seq<seq<int>>, c: nat): (cells: seq<int>)
    requires IsNineByNine(grid) && c < 9
    ensures |cells| == 9
    ensures forall r :: 0 <= r < 9 ==> cells[r] == grid[r][c]
  {
    seq(9, r requires 0 <= r < 9 => grid[r][c])
  }

  /** The block in block-row bi and block-column bj, each 0..2. */
  function BlockOf(grid: seq<seq<int>>, bi: nat, bj: nat): (cells: seq<int>)
    requires IsNineByNine(grid) && bi < 3 && bj < 3
    ensures cells == Block(grid, bi * 3, bj * 3)
  {
    Block(grid, bi * 3, bj * 3)
  }

  /** The validity is_grid_valid checks: every block, row and column holds each digit 1..9. */
  predicate GridValid(grid: seq<seq<int>>)
    requires IsNineByNine(grid)
  {
    (forall bi, bj :: 0 <= bi < 3 && 0 <= bj < 3 ==> HasAllDigits(BlockOf(grid, bi, bj))) &&
    (forall r :: 0 <= r < 9 ==> HasAllDigits(grid[r])) &&
    (forall c :: 0 <= c < 9 ==> HasAllDigits(Column(grid, c)))
  }

  /** The flags record exactly which digits appear among the cells, all of which are digits. */
  ghost predicate Marks(found: seq<bool>, cells: seq<int>)
  {
    |found| == 9 &&
    (forall k :: 0 <= k < |cells| ==> IsDigit(cells[k])) &&
    (forall d :: 1 <= d <= 9 ==> (found[d - 1] <==> d in cells))
  }

  /** No flag set marks the empty run of cells. */
  lemma MarksNone(cells: seq<int>)
    requires cells == []
    ensures Marks(seq(9, _ => false), cells)
  {
  }

  /** Marking one more digit extends the run of cells by that digit. */
  lemma MarksStep(found: seq<bool>, cells: seq<int>, v: int)
    requires Marks(found, cells) && IsDigit(v)
    ensures Marks(found[v - 1 := true], cells + [v])
  {
    assert forall d :: d in cells + [v] <==> d in cells || d == v;
  }

  /** Once a run of cells is marked, the flags are all set exactly when it has every digit. */
  lemma MarksAll(found: seq<bool>, cells: seq<int>)
    requires Marks(found, cells)
    ensures (forall k :: 0 <= k < 9 ==> found[k]) <==> HasAllDigits(cells)
  {
    if forall d :: 1 <= d <= 9 ==> d in cells {
      forall k | 0 <= k < 9
        ensures found[k]
      {
        assert found[(k + 1) - 1] <==> k + 1 in cells;
      }
    }
  }

  /** A run of cells holding a value outside 1..9 lacks some digit. */
  lemma NotDigitInvalid(cells: seq<int>, k: int)
    requires 0 <= k < |cells| && !IsDigit(cells[k])
    ensures !HasAllDigits(cells)
  {
  }

  /** The multiset holding each digit 1..9 once. */
  function Digits(): multiset<int>
  {
    multiset{1, 2, 3, 4, 5, 6, 7, 8, 9}
  }

  /** Nine cells holding every digit hold each digit exactly once. */
  lemma ExactlyOnce(cells: seq<int>)
    requires |cells| == 9 && HasAllDigits(cells)
    ensures multiset(cells) == Digits()
  {
    var m := multiset(cells);
    forall d | d in Digits()
      ensures Digits()[d] <= m[d]
    {
      assert d in cells;
    }
    assert Digits() <= m;
    assert m == Digits() + (m - Digits());
    assert |m - Digits()| == 0;
  }

  /** Conversely, cells holding each digit exactly once hold every digit and nothing else. */
  lemma OnceEachHasAll(cells: seq<int>)
    requires multiset(cells) == Digits()
    ensures |cells| == 9 && HasAllDigits(cells)
  {
    forall k | 0 <= k < |cells|
      ensures IsDigit(cells[k])
    {
      assert cells[k] in multiset(cells);
    }
    forall d | 1 <= d <= 9
      ensures d in cells
    {
      assert d in multiset(cells);
    }
  }

  /** The shared found-number table and the validators that use it. */
  class Validator {
    var isNumberFoundSet: seq<bool>

    constructor()
      ensures isNumberFoundSet == seq(9, _ => false)
    {
      isNumberFoundSet := seq(9, _ => false);
    }

    /** init_found_set: all nine flags are cleared. */
    method InitFoundSet()
      modifies this
      ensures isNumberFoundSet == seq(9, _ => false)
    {
      isNumberFoundSet := seq(9, _ => false);
    }

    /** set_found_number: a value outside 1..9 is refused and marks nothing; a digit sets its flag. */
    method SetFoundNumber(num: int) returns (ok: bool)
      requires |isNumberFoundSet| == 9
      modifies this
      ensures ok == IsDigit(num)
      ensures ok ==> isNumberFoundSet == old(isNumberFoundSet)[num - 1 := true]
      ensures !ok ==> isNumberFoundSet == old(isNumberFoundSet)
    {
      if num < 1 || num > 9 {
        return false;
      }
      isNumberFoundSet := isNumberFoundSet[num - 1 := true];
      return true;
    }

    /** were_all_numbers_found: true exactly when no flag is clear. */
    method WereAllNumbersFound() returns (all: bool)
      ensures all == forall k :: 0 <= k < |isNumberFoundSet| ==> isNumberFoundSet[k]
    {
      for k := 0 to |isNumberFoundSet|
        invariant forall k' :: 0 <= k' < k ==> isNumberFoundSet[k']
      {
        if !isNumberFoundSet[k] {
          return false;
        }
      }
      return true;
    }

    /** is_sub_grid_valid: true exactly when the 3x3 block at (x, y) holds each digit 1..9. */
    method IsSubGridValid(grid: seq<seq<int>>, x: nat, y: nat) returns (valid: bool)
      requires IsNineByNine(grid) && x <= 6 && y <= 6
      modifies this
      ensures valid == HasAllDigits(Block(grid, x, y))
    {
      ghost var cells := Block(grid, x, y);
      InitFoundSet();
      MarksNone(cells[..0]);
      for i := x to x + 3
        invariant Marks(isNumberFoundSet, cells[..(i - x) * 3])
      {
        for j := y to y + 3
          invariant Marks(isNumberFoundSet, cells[..(i - x) * 3 + (j - y)])
        {
          ghost var k := (i - x) * 3 + (j - y);
          BlockCell(grid, x, y, i - x, j - y);
          ghost var before := isNumberFoundSet;
          var ok := SetFoundNumber(grid[i][j]);
          if !ok {
            NotDigitInvalid(cells, k);
            return false;
          }
          MarksStep(before, cells[..k], grid[i][j]);
          assert cells[..k + 1] == cells[..k] + [grid[i][j]];
        }
      }
      assert cells[..9] == cells;
      MarksAll(isNumberFoundSet, cells);
      valid := WereAllNumbersFound();
    }

    /**
     * is_grid_valid: true exactly when every 3x3 block, every row and every column
     * holds each digit 1..9, checked in that order and stopping at the first failure.
     */
    method IsGridValid(grid: seq<seq<int>>) returns (valid: bool)
      requires IsNineByNine(grid)
      modifies this
      ensures valid == GridValid(grid)
    {
      for i := 0 to 3
        invariant forall bi, bj :: 0 <= bi < i && 0 <= bj < 3 ==> HasAllDigits(BlockOf(grid, bi, bj))
      {
        for j := 0 to 3
            invariant forall bi, bj :: 0 <= bi < i && 0 <= bj < 3 ==> HasAllDigits(BlockOf(grid, bi, bj))
          invariant forall bj :: 0 <= bj < j ==> HasAllDigits(BlockOf(grid, i, bj))
        {
          var ok := IsSubGridValid(grid, i * 3, j * 3);
          if !ok {
            assert !HasAllDigits(BlockOf(grid, i, j));
            return false;
          }
        }
      }
      for i := 0 to 9
        invariant forall bi, bj :: 0 <= bi < 3 && 0 <= bj < 3 ==> HasAllDigits(BlockOf(grid, bi, bj))
        invariant forall r :: 0 <= r < i ==> HasAllDigits(grid[r])
      {
        InitFoundSet();
        MarksNone(grid[i][..0]);
        for j := 0 to 9
          invariant Marks(isNumberFoundSet, grid[i][..j])
        {
          ghost var before := isNumberFoundSet;
          var ok := SetFoundNumber(grid[i][j]);
          if !ok {
            NotDigitInvalid(grid[i], j);
            return false;
          }
          MarksStep(before, grid[i][..j], grid[i][j]);
          assert grid[i][..j + 1] == grid[i][..j] + [grid[i][j]];
        }
        assert grid[i][..9] == grid[i];
        MarksAll(isNumberFoundSet, grid[i]);
        var all := WereAllNumbersFound();
        if !all {
          return false;
        }
      }
      for i := 0 to 9
        invariant forall bi, bj :: 0 <= bi < 3 && 0 <= bj < 3 ==> HasAllDigits(BlockOf(grid, bi, bj))
        invariant forall r :: 0 <= r < 9 ==> HasAllDigits(grid[r])
        invariant forall c :: 0 <= c < i ==> HasAllDigits(Column(grid, c))
      {
        ghost var cells := Column(grid, i);
        InitFoundSet();
        MarksNone(cells[..0]);
        for j := 0 to 9
          invariant Marks(isNumberFoundSet, cells[..j])
        {
          ghost var before := isNumberFoundSet;
          var ok := SetFoundNumber(grid[j][i]);
          if !ok {
            NotDigitInvalid(cells, j);
            return false;
          }
          MarksStep(before, cells[..j], grid[j][i]);
          assert cells[..j + 1] == cells[..j] + [grid[j][i]];
        }
        assert cells[..9] == cells;
        MarksAll(isNumberFoundSet, cells);
        var all := WereAllNumbersFound();
        if !all {
          return false;
        }
      }
      return true;
    }
  }

  /** The grid the driver expects to be valid. */
  function SolvedGrid(): (grid: seq<seq<int>>)
    ensures IsNineByNine(grid)
  {
    [[8, 9, 3, 5, 4, 6, 7, 1, 2],
     [2, 6, 4, 9, 7, 1, 8, 5, 3],
     [7, 5, 1, 3, 2, 8, 6, 4, 9],
     [1, 3, 6, 4, 5, 9, 2, 7, 8],
     [5, 2, 8, 6, 1, 7, 3, 9, 4],
     [4, 7, 9, 8, 3, 2, 5, 6, 1],
     [3, 1, 7, 2, 6, 4, 9, 8, 5],
     [9, 4, 5, 7, 8, 3, 1, 2, 6],
     [6, 8, 2, 1, 9, 5, 4, 3, 7]]
  }

  /** The first test grid has 14 in its fourth row. */
  lemma InvalidExampleOutOfRange()
    ensures !GridValid(SolvedGrid()[3 := [1, 3, 6, 14, 5, 9, 2, 7, 8]][5 := [4, 7, 9, 8, 3, 2, 0, 6, 1]])
  {
    var g := SolvedGrid()[3 := [1, 3, 6, 14, 5, 9, 2, 7, 8]][5 := [4, 7, 9, 8, 3, 2, 0, 6, 1]];
    NotDigitInvalid(g[3], 3);
  }

  /** The second test grid repeats 9 in its second row, so 6 is missing there. */
  lemma InvalidExampleRepeatedInRow()
    ensures !GridValid(SolvedGrid()[1 := [2, 9, 4, 9, 7, 1, 8, 5, 3]][7 := [9, 4, 5, 7, 4, 3, 1, 2, 6]])
  {
    var g := SolvedGrid()[1 := [2, 9, 4, 9, 7, 1, 8, 5, 3]][7 := [9, 4, 5, 7, 4, 3, 1, 2, 6]];
    assert 6 !in g[1];
  }

  /** The third test grid has a valid eighth row but a first column without 9. */
  lemma InvalidExampleColumn()
    ensures !GridValid(SolvedGrid()[7 := [4, 9, 5, 7, 8, 3, 1, 2, 6]])
  {
    var g := SolvedGrid()[7 := [4, 9, 5, 7, 8, 3, 1, 2, 6]];
    assert Column(g, 0) == [8, 2, 7, 1, 5, 4, 3, 4, 6];
    assert 9 !in Column(g, 0);
  }

  /** The fourth test grid has rows and columns that are permutations but a first block without 4. */
  lemma InvalidExampleBlock()
    ensures !GridValid([[1, 2, 3, 4, 5, 6, 7, 8, 9],
                        [3, 1, 2, 6, 4, 5, 9, 7, 8],
                        [2, 3, 1, 5, 6, 4, 8, 9, 7],
                        [7, 8, 9, 1, 2, 3, 4, 5, 6],
                        [9, 7, 8, 3, 1, 2, 6, 4, 5],
                        [8, 9, 7, 2, 3, 1, 5, 6, 4],
                        [4, 5, 6, 7, 8, 9, 1, 2, 3],
                        [6, 4, 5, 9, 7, 8, 3, 1, 2],
                        [5, 6, 4, 8, 9, 7, 2, 3, 1]])
  {
    var g := [[1, 2, 3, 4, 5, 6, 7, 8, 9],
              [3, 1, 2, 6, 4, 5, 9, 7, 8],
              [2, 3, 1, 5, 6, 4, 8, 9, 7],
              [7, 8, 9, 1, 2, 3, 4, 5, 6],
              [9, 7, 8, 3, 1, 2, 6, 4, 5],
              [8, 9, 7, 2, 3, 1, 5, 6, 4],
              [4, 5, 6, 7, 8, 9, 1, 2, 3],
              [6, 4, 5, 9, 7, 8, 3, 1, 2],
              [5, 6, 4, 8, 9, 7, 2, 3, 1]];
    assert BlockOf(g, 0, 0) == [1, 2, 3, 3, 1, 2, 2, 3, 1];
    assert 4 !in BlockOf(g, 0, 0);
  }

  /** Cells all holding digits, with digit d found at position pos[d - 1], hold every digit. */
  lemma Witnessed(cells: seq<int>, pos: seq<int>)
    requires |pos| == 9 && forall k :: 0 <= k < 9 ==> 0 <= pos[k] < |cells| && cells[pos[k]] == k + 1
    requires forall k :: 0 <= k < |cells| ==> IsDigit(cells[k])
    ensures HasAllDigits(cells)
  {
    forall d | 1 <= d <= 9
      ensures d in cells
    {
      assert cells[pos[d - 1]] == d;
    }
  }

  /** The first three rows of the fifth test grid hold each digit. */
  lemma ValidExampleRows0()
    ensures forall r :: 0 <= r < 3 ==> HasAllDigits(SolvedGrid()[r])
  {
    Witnessed([8, 9, 3, 5, 4, 6, 7, 1, 2], [7, 8, 2, 4, 3, 5, 6, 0, 1]);
    Witnessed([2, 6, 4, 9, 7, 1, 8, 5, 3], [5, 0, 8, 2, 7, 1, 4, 6, 3]);
    Witnessed([7, 5, 1, 3, 2, 8, 6, 4, 9], [2, 4, 3, 7, 1, 6, 0, 5, 8]);
  }

  /** The middle three rows of the fifth test grid hold each digit. */
  lemma ValidExampleRows1()
    ensures forall r :: 3 <= r < 6 ==> HasAllDigits(SolvedGrid()[r])
  {
    Witnessed([1, 3, 6, 4, 5, 9, 2, 7, 8], [0, 6, 1, 3, 4, 2, 7, 8, 5]);
    Witnessed([5, 2, 8, 6, 1, 7, 3, 9, 4], [4, 1, 6, 8, 0, 3, 5, 2, 7]);
    Witnessed([4, 7, 9, 8, 3, 2, 5, 6, 1], [8, 5, 4, 0, 6, 7, 1, 3, 2]);
  }

  /** The last three rows of the fifth test grid hold each digit. */
  lemma ValidExampleRows2()
    ensures forall r :: 6 <= r < 9 ==> HasAllDigits(SolvedGrid()[r])
  {
    Witnessed([3, 1, 7, 2, 6, 4, 9, 8, 5], [1, 3, 0, 5, 8, 4, 2, 7, 6]);
    Witnessed([9, 4, 5, 7, 8, 3, 1, 2, 6], [6, 7, 5, 1, 2, 8, 3, 4, 0]);
    Witnessed([6, 8, 2, 1, 9, 5, 4, 3, 7], [3, 2, 7, 6, 5, 0, 8, 1, 4]);
  }

  /** The first three columns of the fifth test grid hold each digit. */
  lemma ValidExampleColumns0()
    ensures forall c :: 0 <= c < 3 ==> HasAllDigits(Column(SolvedGrid(), c))
  {
    var g := SolvedGrid();
    Witnessed([8, 2, 7, 1, 5, 4, 3, 9, 6], [3, 1, 6, 5, 4, 8, 2, 0, 7]);
    assert Column(g, 0) == [8, 2, 7, 1, 5, 4, 3, 9, 6];
    Witnessed([9, 6, 5, 3, 2, 7, 1, 4, 8], [6, 4, 3, 7, 2, 1, 5, 8, 0]);
    assert Column(g, 1) == [9, 6, 5, 3, 2, 7, 1, 4, 8];
    Witnessed([3, 4, 1, 6, 8, 9, 7, 5, 2], [2, 8, 0, 1, 7, 3, 6, 4, 5]);
    assert Column(g, 2) == [3, 4, 1, 6, 8, 9, 7, 5, 2];
  }

  /** The middle three columns of the fifth test grid hold each digit. */
  lemma ValidExampleColumns1()
    ensures forall c :: 3 <= c < 6 ==> HasAllDigits(Column(SolvedGrid(), c))
  {
    var g := SolvedGrid();
    Witnessed([5, 9, 3, 4, 6, 8, 2, 7, 1], [8, 6, 2, 3, 0, 4, 7, 5, 1]);
    assert Column(g, 3) == [5, 9, 3, 4, 6, 8, 2, 7, 1];
    Witnessed([4, 7, 2, 5, 1, 3, 6, 8, 9], [4, 2, 5, 0, 3, 6, 1, 7, 8]);
    assert Column(g, 4) == [4, 7, 2, 5, 1, 3, 6, 8, 9];
    Witnessed([6, 1, 8, 9, 7, 2, 4, 3, 5], [1, 5, 7, 6, 8, 0, 4, 2, 3]);
    assert Column(g, 5) == [6, 1, 8, 9, 7, 2, 4, 3, 5];
  }

  /** The last three columns of the fifth test grid hold each digit. */
  lemma ValidExampleColumns2()
    ensures forall c :: 6 <= c < 9 ==> HasAllDigits(Column(SolvedGrid(), c))
  {
    var g := SolvedGrid();
    Witnessed([7, 8, 6, 2, 3, 5, 9, 1, 4], [7, 3, 4, 8, 5, 2, 0, 1, 6]);
    assert Column(g, 6) == [7, 8, 6, 2, 3, 5, 9, 1, 4];
    Witnessed([1, 5, 4, 7, 9, 6, 8, 2, 3], [0, 7, 8, 2, 1, 5, 3, 6, 4]);
    assert Column(g, 7) == [1, 5, 4, 7, 9, 6, 8, 2, 3];
    Witnessed([2, 3, 9, 8, 4, 1, 5, 6, 7], [5, 0, 1, 4, 6, 7, 8, 3, 2]);
    assert Column(g, 8) == [2, 3, 9, 8, 4, 1, 5, 6, 7];
  }

  /** The first three blocks of the fifth test grid hold each digit. */
  lemma ValidExampleBlocks0()
    ensures forall bj :: 0 <= bj < 3 ==> HasAllDigits(BlockOf(SolvedGrid(), 0, bj))
  {
    var g := SolvedGrid();
    Witnessed([8, 9, 3, 2, 6, 4, 7, 5, 1], [8, 3, 2, 5, 7, 4, 6, 0, 1]);
    assert g[0][0..3] == [8, 9, 3];
    assert g[1][0..3] == [2, 6, 4];
    assert g[2][0..3] == [7, 5, 1];
    assert BlockOf(g, 0, 0) == [8, 9, 3, 2, 6, 4, 7, 5, 1];
    Witnessed([5, 4, 6, 9, 7, 1, 3, 2, 8], [5, 7, 6, 1, 0, 2, 4, 8, 3]);
    assert g[0][3..6] == [5, 4, 6];
    assert g[1][3..6] == [9, 7, 1];
    assert g[2][3..6] == [3, 2, 8];
    assert BlockOf(g, 0, 1) == [5, 4, 6, 9, 7, 1, 3, 2, 8];
    Witnessed([7, 1, 2, 8, 5, 3, 6, 4, 9], [1, 2, 5, 7, 4, 6, 0, 3, 8]);
    assert g[0][6..9] == [7, 1, 2];
    assert g[1][6..9] == [8, 5, 3];
    assert g[2][6..9] == [6, 4, 9];
    assert BlockOf(g, 0, 2) == [7, 1, 2, 8, 5, 3, 6, 4, 9];
  }

  /** The middle three blocks of the fifth test grid hold each digit. */
  lemma ValidExampleBlocks1()
    ensures forall bj :: 0 <= bj < 3 ==> HasAllDigits(BlockOf(SolvedGrid(), 1, bj))
  {
    var g := SolvedGrid();
    Witnessed([1, 3, 6, 5, 2, 8, 4, 7, 9], [0, 4, 1, 6, 3, 2, 7, 5, 8]);
    assert g[3][0..3] == [1, 3, 6];
    assert g[4][0..3] == [5, 2, 8];
    assert g[5][0..3] == [4, 7, 9];
    assert BlockOf(g, 1, 0) == [1, 3, 6, 5, 2, 8, 4, 7, 9];
    Witnessed([4, 5, 9, 6, 1, 7, 8, 3, 2], [4, 8, 7, 0, 1, 3, 5, 6, 2]);
    assert g[3][3..6] == [4, 5, 9];
    assert g[4][3..6] == [6, 1, 7];
    assert g[5][3..6] == [8, 3, 2];
    assert BlockOf(g, 1, 1) == [4, 5, 9, 6, 1, 7, 8, 3, 2];
    Witnessed([2, 7, 8, 3, 9, 4, 5, 6, 1], [8, 0, 3, 5, 6, 7, 1, 2, 4]);
    assert g[3][6..9] == [2, 7, 8];
    assert g[4][6..9] == [3, 9, 4];
    assert g[5][6..9] == [5, 6, 1];
    assert BlockOf(g, 1, 2) == [2, 7, 8, 3, 9, 4, 5, 6, 1];
  }

  /** The last three blocks of the fifth test grid hold each digit. */
  lemma ValidExampleBlocks2()
    ensures forall bj :: 0 <= bj < 3 ==> HasAllDigits(BlockOf(SolvedGrid(), 2, bj))
  {
    var g := SolvedGrid();
    Witnessed([3, 1, 7, 9, 4, 5, 6, 8, 2], [1, 8, 0, 4, 5, 6, 2, 7, 3]);
    assert g[6][0..3] == [3, 1, 7];
    assert g[7][0..3] == [9, 4, 5];
    assert g[8][0..3] == [6, 8, 2];
    assert BlockOf(g, 2, 0) == [3, 1, 7, 9, 4, 5, 6, 8, 2];
    Witnessed([2, 6, 4, 7, 8, 3, 1, 9, 5], [6, 0, 5, 2, 8, 1, 3, 4, 7]);
    assert g[6][3..6] == [2, 6, 4];
    assert g[7][3..6] == [7, 8, 3];
    assert g[8][3..6] == [1, 9, 5];
    assert BlockOf(g, 2, 1) == [2, 6, 4, 7, 8, 3, 1, 9, 5];
    Witnessed([9, 8, 5, 1, 2, 6, 4, 3, 7], [3, 4, 7, 6, 2, 5, 8, 1, 0]);
    assert g[6][6..9] == [9, 8, 5];
    assert g[7][6..9] == [1, 2, 6];
    assert g[8][6..9] == [4, 3, 7];
    assert BlockOf(g, 2, 2) == [9, 8, 5, 1, 2, 6, 4, 3, 7];
  }

  /** The fifth test grid is valid. */
  lemma ValidExample()
    ensures GridValid(SolvedGrid())
  {
    ValidExampleRows0();
    ValidExampleRows1();
    ValidExampleRows2();
    ValidExampleColumns0();
    ValidExampleColumns1();
    ValidExampleColumns2();
    ValidExampleBlocks0();
    ValidExampleBlocks1();
    ValidExampleBlocks2();
  }
}
