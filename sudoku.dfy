/** The game model: a 6x6 board of cells, the validator that marks values
    repeated in a row, column or block, the solved test, and the two hint
    strategies (any empty cell, or a most constrained one). */
module Sudoku {
  import opened Rules
  import opened Cells
  import opened Solver
  import opened Generator

  /** The digits 1..6 that may legally go into (r, c) of g. */
  function Candidates(g: Grid, r: int, c: int): set<int>
    requires InGrid(r, c)
  {
    CandidatesBelow(g, r, c, Size + 1)
  }

  /** The legal digits among 1..n-1. */
  function CandidatesBelow(g: Grid, r: int, c: int, n: int): set<int>
    requires InGrid(r, c)
  {
    set num | 1 <= num < n && Safe(g, r, c, num)
  }

  /** Raising the bound by one adds n exactly when n is legal. */
  lemma CandidatesBelowStep(g: Grid, r: int, c: int, n: int)
    requires InGrid(r, c) && 1 <= n
    ensures CandidatesBelow(g, r, c, n + 1)
            == if Safe(g, r, c, n) then CandidatesBelow(g, r, c, n) + {n} else CandidatesBelow(g, r, c, n)
    ensures n !in CandidatesBelow(g, r, c, n)
  {
  }

  /** There are at most n - 1 legal digits below n, so at most six candidates. */
  lemma {:induction false} CandidatesBelowBound(g: Grid, r: int, c: int, n: int)
    requires InGrid(r, c) && 1 <= n
    ensures |CandidatesBelow(g, r, c, n)| <= n - 1
    decreases n
  {
    if n == 1 {
      assert CandidatesBelow(g, r, c, n) == {};
    } else {
      CandidatesBelowBound(g, r, c, n - 1);
      CandidatesBelowStep(g, r, c, n - 1);
    }
  }

  /** The digit a solution puts into an empty cell is among its candidates. */
  lemma SolutionDigitIsCandidate(g: Grid, s: Grid, r: int, c: int)
    requires InGrid(r, c) && g[r][c] == 0 && SolutionOf(g, s)
    ensures s[r][c] in Candidates(g, r, c)
  {
    SolutionDigitFits(g, r, c, s);
  }

  /** An empty cell without candidates is a dead end: nothing completes g. */
  lemma NoCandidateMeansUnsolvable(g: Grid, r: int, c: int)
    requires InGrid(r, c) && g[r][c] == 0 && Candidates(g, r, c) == {}
    ensures !Solvable(g)
  {
    if Solvable(g) {
      var s: Grid :| SolutionOf(g, s);
      SolutionDigitIsCandidate(g, s, r, c);
    }
  }

  /** The counting test of the validator agrees with Duplicated: a non-zero
      entry occurs more than once exactly when another position repeats it. */
  lemma DuplicatedIffCount(line: seq<int>, k: int)
    requires 0 <= k < |line|
    ensures Duplicated(line, k) <==> line[k] != 0 && multiset(line)[line[k]] > 1
  {
    var rest := line[..k] + line[k + 1..];
    assert line == line[..k] + [line[k]] + line[k + 1..];
    assert multiset(line)[line[k]] == multiset(rest)[line[k]] + 1;
    if exists j :: 0 <= j < |line| && j != k && line[j] == line[k] {
      var j :| 0 <= j < |line| && j != k && line[j] == line[k];
      if j < k {
        assert rest[j] == line[j];
      } else {
        assert rest[j - 1] == line[j];
      }
      assert line[k] in rest;
    }
    if multiset(rest)[line[k]] > 0 {
      assert line[k] in rest;
      var i :| 0 <= i < |rest| && rest[i] == line[k];
      if i < k {
        assert line[i] == line[k];
      } else {
        assert line[i + 1] == line[k];
      }
    }
  }

  /** The values of an array of cells, in order. */
  ghost function LineOf(cells: array<Cell?>): (line: seq<int>)
    requires forall k :: 0 <= k < cells.Length ==> cells[k] != null
    reads cells, set k | 0 <= k < cells.Length :: cells[k]
    ensures |line| == cells.Length && forall k :: 0 <= k < cells.Length ==> line[k] == cells[k].value
  {
    seq(cells.Length, k requires 0 <= k < cells.Length && cells[k] != null
                        reads cells, set k | 0 <= k < cells.Length :: cells[k] => cells[k].value)
  }

  // ---------------------------------------------------------------------
  // Generating a new game (the steps of resetting the board)

  /** Relabels the template through the digit map d -> perm[d - 1]. */
  method RelabelledTemplate(perm: seq<int>) returns (a: array2<int>)
    requires IsDigitShuffle(perm)
    ensures fresh(a) && a.Length0 == Size && a.Length1 == Size
    ensures Snapshot(a) == Solved(perm)
  {
    var numberMap: map<int, int> := map[];
    for i := 0 to Size
      invariant forall d :: d in numberMap <==> 1 <= d <= i
      invariant forall d :: 1 <= d <= i ==> numberMap[d] == perm[d - 1]
    {
      numberMap := numberMap[i + 1 := perm[i]];
    }
    TemplateIsSolved();
    ghost var s := Solved(perm);
    a := new int[Size, Size];
    for r := 0 to Size
      invariant forall i, j :: 0 <= i < r && 0 <= j < Size ==> a[i, j] == s[i][j]
    {
      for c := 0 to Size
        invariant forall i, j :: 0 <= i < r && 0 <= j < Size ==> a[i, j] == s[i][j]
        invariant forall j :: 0 <= j < c ==> a[r, j] == s[r][j]
      {
        a[r, c] := numberMap[Template[r][c]];
      }
    }
    GridsEqual(Snapshot(a), s);
  }

  /** The six positions of the block whose top-left cell is
      (startRow, startCol), row by row. */
  method BlockPositions(startRow: int, startCol: int) returns (positions: seq<(int, int)>)
    ensures |positions| == Size
    ensures forall k :: 0 <= k < Size ==>
      positions[k] == (startRow + k / BlockCols, startCol + k % BlockCols)
  {
    positions := [];
    for r := 0 to BlockRows
      invariant |positions| == r * BlockCols
      invariant forall k :: 0 <= k < |positions| ==>
        positions[k] == (startRow + k / BlockCols, startCol + k % BlockCols)
    {
      for c := 0 to BlockCols
        invariant |positions| == r * BlockCols + c
        invariant forall k :: 0 <= k < |positions| ==>
          positions[k] == (startRow + k / BlockCols, startCol + k % BlockCols)
      {
        positions := positions + [(startRow + r, startCol + c)];
      }
    }
  }

  /** (r, c) has been kept as a clue once blocks 0..b-1 are done and the
      first i shuffled positions of block b are. */
  ghost predicate KeptSoFar(shuffles: seq<seq<int>>, b: int, i: int, r: int, c: int)
    requires AreBlockShuffles(shuffles) && InGrid(r, c) && 0 <= i <= CluesPerBlock
  {
    BlockCellInverse(r, c);
    (BlockIndex(r, c) < b && IsClue(shuffles, r, c)) ||
    (BlockIndex(r, c) == b && IndexInBlock(r, c) in shuffles[b][..i])
  }

  /** Step 4 of the generator: in each block, visited block row by block row,
      the first two positions of the block's shuffle keep their solved value;
      every other cell stays empty. */
  method ChooseClues(solved: array2<int>, shuffles: seq<seq<int>>) returns (initial: array2<int>)
    requires solved.Length0 == Size && solved.Length1 == Size
    requires AreBlockShuffles(shuffles)
    ensures fresh(initial) && initial.Length0 == Size && initial.Length1 == Size
    ensures forall r, c :: InGrid(r, c) ==>
      initial[r, c] == if IsClue(shuffles, r, c) then solved[r, c] else 0
  {
    initial := new int[Size, Size]((_, _) => 0);
    for blockRow := 0 to Size / BlockRows
      invariant forall r, c :: InGrid(r, c) ==>
        initial[r, c] == if KeptSoFar(shuffles, blockRow * BlocksAcross, 0, r, c) then solved[r, c] else 0
    {
      for blockCol := 0 to Size / BlockCols
        invariant forall r, c :: InGrid(r, c) ==>
          initial[r, c] == if KeptSoFar(shuffles, blockRow * BlocksAcross + blockCol, 0, r, c) then solved[r, c] else 0
      {
        KeepBlockClues(initial, solved, shuffles, blockRow, blockCol);
      }
      assert blockRow * BlocksAcross + Size / BlockCols == (blockRow + 1) * BlocksAcross;
    }
    assert Size / BlockRows * BlocksAcross == Size;
    forall r, c | InGrid(r, c)
      ensures initial[r, c] == if IsClue(shuffles, r, c) then solved[r, c] else 0
    {
      BlockCellInverse(r, c);
    }
  }

  /** Keeps the first two shuffled positions of block (blockRow, blockCol). */
  method KeepBlockClues(initial: array2<int>, solved: array2<int>, shuffles: seq<seq<int>>,
                        blockRow: int, blockCol: int)
    requires initial.Length0 == Size && initial.Length1 == Size && initial != solved
    requires solved.Length0 == Size && solved.Length1 == Size
    requires AreBlockShuffles(shuffles)
    requires 0 <= blockRow < Size / BlockRows && 0 <= blockCol < Size / BlockCols
    requires forall r, c :: InGrid(r, c) ==>
      initial[r, c] == if KeptSoFar(shuffles, blockRow * BlocksAcross + blockCol, 0, r, c) then solved[r, c] else 0
    modifies initial
    ensures forall r, c :: InGrid(r, c) ==>
      initial[r, c] == if KeptSoFar(shuffles, blockRow * BlocksAcross + blockCol + 1, 0, r, c) then solved[r, c] else 0
  {
    var b := blockRow * BlocksAcross + blockCol;
    var blockPositions := BlockPositions(blockRow * BlockRows, blockCol * BlockCols);
    var order := shuffles[b];
    for i := 0 to CluesPerBlock
      invariant forall r, c :: InGrid(r, c) ==>
        initial[r, c] == if KeptSoFar(shuffles, b, i, r, c) then solved[r, c] else 0
    {
      var pos := blockPositions[order[i]];
      BlockOfOffset(blockRow, blockCol, order[i]);
      initial[pos.0, pos.1] := solved[pos.0, pos.1];
      assert shuffles[b][..i + 1] == shuffles[b][..i] + [order[i]];
      forall r, c | InGrid(r, c) && (r, c) != pos
        ensures KeptSoFar(shuffles, b, i + 1, r, c) == KeptSoFar(shuffles, b, i, r, c)
      {
        BlockOfCell(blockRow, blockCol, r, c);
      }
    }
    forall r, c | InGrid(r, c)
      ensures KeptSoFar(shuffles, b + 1, 0, r, c) == KeptSoFar(shuffles, b, CluesPerBlock, r, c)
    {
      BlockCellInverse(r, c);
      assert shuffles[b][..CluesPerBlock] == [order[0], order[1]];
    }
  }

  /** Offset k of the block (br, bc), taken row by row from its top-left
      cell, lies in that block at index k. */
  lemma BlockOfOffset(br: int, bc: int, k: int)
    requires 0 <= br < Size / BlockRows && 0 <= bc < Size / BlockCols && 0 <= k < Size
    ensures var i, j := br * BlockRows + k / BlockCols, bc * BlockCols + k % BlockCols;
      InGrid(i, j) && BlockIndex(i, j) == br * BlocksAcross + bc && IndexInBlock(i, j) == k
  {
  }

  /** A cell of the block (br, bc) is offset IndexInBlock(r, c) from the
      block's top-left cell. */
  lemma BlockOfCell(br: int, bc: int, r: int, c: int)
    requires 0 <= br < Size / BlockRows && 0 <= bc < Size / BlockCols && InGrid(r, c)
    ensures 0 <= IndexInBlock(r, c) < Size
    ensures BlockIndex(r, c) == br * BlocksAcross + bc ==>
      && r == br * BlockRows + IndexInBlock(r, c) / BlockCols
      && c == bc * BlockCols + IndexInBlock(r, c) % BlockCols
      && BlockStartRow(r) == br * BlockRows && BlockStartCol(c) == bc * BlockCols
  {
  }

  /** Whether (r, c) is marked once the first rows rows, the first cols
      columns and the first blocks blocks of g have been validated. */
  predicate MarkedAfter(g: Grid, rows: int, cols: int, blocks: int, r: int, c: int)
    requires InGrid(r, c)
  {
    || (r < rows && RowDup(g, r, c))
    || (c < cols && ColDup(g, r, c))
    || (BlockIndex(r, c) < blocks && BlockDup(g, r, c))
  }

  // ---------------------------------------------------------------------
  // The board

  /** Counts, digit by digit, the values the backtracking safety test admits
      at (row, col) of a. */
  method CountCandidates(a: array2<int>, row: int, col: int) returns (count: int)
    requires a.Length0 == Size && a.Length1 == Size && InGrid(row, col)
    ensures count == |Candidates(Snapshot(a), row, col)|
    ensures 0 <= count <= Size
  {
    count := 0;
    ghost var g := Snapshot(a);
    for num := 1 to Size + 1
      invariant count == |CandidatesBelow(g, row, col, num)|
      invariant 0 <= count < num
    {
      var safe := IsSafe(a, row, col, num);
      CandidatesBelowStep(g, row, col, num);
      if safe {
        count := count + 1;
      }
    }
  }

  /** Solves a copy of the board and, when that succeeds, reveals the solved
      value of one of the given empty cells, picked arbitrarily. */
  method HintFromSolution(boardCopy: array2<int>, emptyCells: seq<(int, int)>) returns (hint: Cell?)
    requires boardCopy.Length0 == Size && boardCopy.Length1 == Size && |emptyCells| > 0
    requires forall p :: p in emptyCells ==> InGrid(p.0, p.1) && boardCopy[p.0, p.1] == 0
    modifies boardCopy
    ensures hint == null <==> Search(old(Snapshot(boardCopy))).None?
    ensures hint != null ==>
      && fresh(hint) && (hint.row, hint.col) in emptyCells
      && hint.value == Search(old(Snapshot(boardCopy))).value[hint.row][hint.col]
      && 1 <= hint.value <= Size
  {
    ghost var g := Snapshot(boardCopy);
    var solved := Solve(boardCopy);
    if !solved {
      return null;
    }
    var i :| 0 <= i < |emptyCells|;
    var row, col := emptyCells[i].0, emptyCells[i].1;
    assert emptyCells[i] in emptyCells;
    SearchSound(g);
    hint := new Cell(row, col, boardCopy[row, col]);
  }

  class SudokuModel {
    /** board[r, c] is the cell at row r, column c (the source keys the same
        cells by the string "r_c" in a hash map). */
    const board: array2<Cell?>

    /** Every position holds a cell that knows its own position. */
    ghost predicate Valid()
      reads board
    {
      && board.Length0 == Size && board.Length1 == Size
      && forall r, c :: InGrid(r, c) ==> board[r, c] != null && board[r, c].row == r && board[r, c].col == c
    }

    ghost function BoardCells(): set<Cell?>
      reads board
    {
      set r, c | 0 <= r < board.Length0 && 0 <= c < board.Length1 :: board[r, c]
    }

    /** The values on the board. */
    ghost function Values(): (g: Grid)
      requires Valid()
      reads board, BoardCells()
      ensures forall r, c :: InGrid(r, c) ==> g[r][c] == board[r, c].value
    {
      seq(Size, r requires 0 <= r < Size && Valid() reads board, BoardCells() =>
        seq(Size, c requires 0 <= c < Size && Valid() reads board, BoardCells() => board[r, c].value))
    }

    /** Each cell is marked as an error exactly when the validator's rule
        flags its value. */
    ghost predicate ErrorsMatchValues()
      requires Valid()
      reads board, BoardCells()
    {
      forall r, c :: InGrid(r, c) ==> board[r, c].isError == Conflict(Values(), r, c)
    }

    /** The error marks after validating the first rows rows, the first cols
        columns and the first blocks blocks of g, starting from clear marks. */
    ghost predicate ErrorsAre(g: Grid, rows: int, cols: int, blocks: int)
      requires Valid()
      reads board, BoardCells()
    {
      forall r, c {:trigger board[r, c].isError} :: InGrid(r, c) ==>
        board[r, c].isError == MarkedAfter(g, rows, cols, blocks, r, c)
    }

    /** A new game: a puzzle with two clues per block, clues fixed. */
    constructor (perm: seq<int>, shuffles: seq<seq<int>>)
      requires IsDigitShuffle(perm) && AreBlockShuffles(shuffles)
      ensures Valid() && Values() == Puzzle(perm, shuffles)
      ensures fresh(board) && forall r, c :: InGrid(r, c) ==> fresh(board[r, c])
      ensures forall r, c :: InGrid(r, c) ==> board[r, c].isFixed == (Values()[r][c] != 0)
      ensures forall r, c :: InGrid(r, c) ==> !board[r, c].isError
      ensures ErrorsMatchValues()
    {
      board := new Cell?[Size, Size];
      new;
      ResetBoard(perm, shuffles);
    }

    /** Replaces every cell by a fresh one holding the generated puzzle:
        clue cells carry their relabelled solution value and are fixed, the
        rest are empty; no cell is marked as an error. */
    method ResetBoard(perm: seq<int>, shuffles: seq<seq<int>>)
      requires IsDigitShuffle(perm) && AreBlockShuffles(shuffles)
      requires board.Length0 == Size && board.Length1 == Size
      modifies board
      ensures Valid() && Values() == Puzzle(perm, shuffles)
      ensures forall r, c :: InGrid(r, c) ==> fresh(board[r, c])
      ensures forall r, c :: InGrid(r, c) ==> board[r, c].isFixed == (Values()[r][c] != 0)
      ensures forall r, c :: InGrid(r, c) ==> !board[r, c].isError
      ensures ErrorsMatchValues()
    {
      var solved := RelabelledTemplate(perm);
      var initial := ChooseClues(solved, shuffles);
      ghost var p := Puzzle(perm, shuffles);
      assert forall r, c :: InGrid(r, c) ==> initial[r, c] == p[r][c];
      PlaceCells(initial);
      GridsEqual(Values(), p);
      ValidateAllCells();
      PuzzleHasNoConflict(perm, shuffles);
    }

    /** Step 5 of the generator: a new cell for every position. */
    method PlaceCells(initial: array2<int>)
      requires board.Length0 == Size && board.Length1 == Size
      requires initial.Length0 == Size && initial.Length1 == Size
      modifies board
      ensures Valid()
      ensures forall r, c :: InGrid(r, c) ==>
        && fresh(board[r, c]) && board[r, c].value == initial[r, c]
        && board[r, c].isFixed == (initial[r, c] != 0) && !board[r, c].isError
    {
      for row := 0 to Size
        invariant forall r, c :: InGrid(r, c) && r < row ==>
          && board[r, c] != null && fresh(board[r, c]) && board[r, c].row == r && board[r, c].col == c
          && board[r, c].value == initial[r, c]
          && board[r, c].isFixed == (initial[r, c] != 0) && !board[r, c].isError
      {
        for col := 0 to Size
          invariant forall r, c :: InGrid(r, c) && (r < row || (r == row && c < col)) ==>
            && board[r, c] != null && fresh(board[r, c]) && board[r, c].row == r && board[r, c].col == c
            && board[r, c].value == initial[r, c]
            && board[r, c].isFixed == (initial[r, c] != 0) && !board[r, c].isError
        {
          var cell := new Cell(row, col, initial[row, col]);
          board[row, col] := cell;
        }
      }
    }

    /** The cell at (row, col), or null when the position is off the board. */
    function GetCell(row: int, col: int): (cell: Cell?)
      requires Valid()
      reads board
      ensures cell != null <==> InGrid(row, col)
      ensures cell != null ==> cell.row == row && cell.col == col
    {
      if InGrid(row, col) then board[row, col] else null
    }

    /** Writes value into a non-clue cell and revalidates the board; a clue
        cell or a position off the board is refused and nothing changes. */
    method SetCellValue(row: int, col: int, value: int) returns (ok: bool)
      requires Valid()
      modifies BoardCells()`value, BoardCells()`isError
      ensures ok <==> InGrid(row, col) && !board[row, col].isFixed
      ensures ok ==> Values() == Place(old(Values()), row, col, value) && ErrorsMatchValues()
      ensures !ok ==> Values() == old(Values())
      ensures !ok ==> forall r, c :: InGrid(r, c) ==> board[r, c].isError == old(board[r, c].isError)
    {
      var cell := GetCell(row, col);
      if cell != null && !cell.isFixed {
        ghost var g := Values();
        cell.SetValue(value);
        GridsEqual(Values(), Place(g, row, col, value));
        ValidateAllCells();
        return true;
      }
      return false;
    }

    /** Clears every error mark, then validates each row, each column and
        each block in turn. The values stay as they are. */
    method ValidateAllCells()
      requires Valid()
      modifies BoardCells()`isError
      ensures Values() == old(Values())
      ensures ErrorsMatchValues()
    {
      ghost var g := Values();
      for r := 0 to Size
        invariant forall i, j :: InGrid(i, j) && i < r ==> !board[i, j].isError
      {
        for c := 0 to Size
          invariant forall i, j :: InGrid(i, j) && (i < r || (i == r && j < c)) ==> !board[i, j].isError
        {
          board[r, c].SetError(false);
        }
      }
      forall r, c | InGrid(r, c) ensures board[r, c].isError == MarkedAfter(g, 0, 0, 0, r, c) {
        BlockCellInverse(r, c);
      }
      ValidateRows(g);
      ValidateCols(g);
      ValidateBlocks(g);
      GridsEqual(Values(), g);
      forall r, c | InGrid(r, c) ensures board[r, c].isError == Conflict(g, r, c) {
        BlockCellInverse(r, c);
      }
    }

    /** Cell (r, c) holds g[r][c] for every position. */
    ghost predicate HoldsValues(g: Grid)
      requires Valid()
      reads board, BoardCells()
    {
      forall r, c {:trigger board[r, c].value} :: InGrid(r, c) ==> board[r, c].value == g[r][c]
    }

    /** The row pass of the validation. */
    method ValidateRows(ghost g: Grid)
      requires Valid() && HoldsValues(g) && ErrorsAre(g, 0, 0, 0)
      modifies BoardCells()`isError
      ensures HoldsValues(g) && ErrorsAre(g, Size, 0, 0)
    {
      for i := 0 to Size
        invariant HoldsValues(g) && ErrorsAre(g, i, 0, 0)
      {
        var cells := GetCellsInRow(i);
        assert LineOf(cells) == g[i];
        label before:
        ValidateLine(cells);
        forall r, c | InGrid(r, c)
          ensures board[r, c].isError == (old@before(board[r, c].isError) || (r == i && RowDup(g, r, c)))
        {
          if r == i {
            assert cells[c] == board[r, c];
          } else {
            assert forall k :: 0 <= k < Size ==> cells[k] != board[r, c];
          }
        }
      }
    }

    /** The column pass of the validation. */
    method ValidateCols(ghost g: Grid)
      requires Valid() && HoldsValues(g) && ErrorsAre(g, Size, 0, 0)
      modifies BoardCells()`isError
      ensures HoldsValues(g) && ErrorsAre(g, Size, Size, 0)
    {
      for i := 0 to Size
        invariant HoldsValues(g) && ErrorsAre(g, Size, i, 0)
      {
        var cells := GetCellsInCol(i);
        assert LineOf(cells) == ColLine(g, i);
        label before:
        ValidateLine(cells);
        forall r, c | InGrid(r, c)
          ensures board[r, c].isError ==
            (old@before(board[r, c].isError) || (c == i && ColDup(g, r, c)))
        {
          if c == i {
            assert cells[r] == board[r, c];
          } else {
            assert forall k :: 0 <= k < Size ==> cells[k] != board[r, c];
          }
        }
      }
    }

    /** The block pass of the validation, blocks visited block row by block
        row. */
    method ValidateBlocks(ghost g: Grid)
      requires Valid() && HoldsValues(g) && ErrorsAre(g, Size, Size, 0)
      modifies BoardCells()`isError
      ensures HoldsValues(g) && ErrorsAre(g, Size, Size, Size)
    {
      for br := 0 to Size / BlockRows
        invariant HoldsValues(g) && ErrorsAre(g, Size, Size, br * BlocksAcross)
      {
        for bc := 0 to Size / BlockCols
          invariant HoldsValues(g) && ErrorsAre(g, Size, Size, br * BlocksAcross + bc)
        {
          ValidateBlock(g, br, bc);
        }
        assert br * BlocksAcross + Size / BlockCols == (br + 1) * BlocksAcross;
      }
      assert Size / BlockRows * BlocksAcross == Size;
    }

    /** Validates block (br, bc), the next one in visiting order. */
    method ValidateBlock(ghost g: Grid, br: int, bc: int)
      requires 0 <= br < Size / BlockRows && 0 <= bc < Size / BlockCols
      requires Valid() && HoldsValues(g) && ErrorsAre(g, Size, Size, br * BlocksAcross + bc)
      modifies BoardCells()`isError
      ensures HoldsValues(g) && ErrorsAre(g, Size, Size, br * BlocksAcross + bc + 1)
    {
      ghost var b := br * BlocksAcross + bc;
      var cells := GetCellsInBlock(br * BlockRows, bc * BlockCols);
      assert LineOf(cells) == BlockLine(g, br * BlockRows, bc * BlockCols);
      label before:
      ValidateLine(cells);
      forall r, c | InGrid(r, c)
        ensures board[r, c].isError == MarkedAfter(g, Size, Size, b + 1, r, c)
      {
        BlockMembers(cells, br, bc, r, c);
        assert old@before(board[r, c].isError) == MarkedAfter(g, Size, Size, b, r, c);
      }
    }

    /** The cells of block (br, bc) are exactly the board cells whose block
        is that block, each at its index inside the block. */
    lemma BlockMembers(cells: array<Cell?>, br: int, bc: int, r: int, c: int)
      requires Valid() && 0 <= br < Size / BlockRows && 0 <= bc < Size / BlockCols && InGrid(r, c)
      requires cells.Length == Size
      requires forall k :: 0 <= k < Size ==>
        cells[k] == board[br * BlockRows + k / BlockCols, bc * BlockCols + k % BlockCols]
      ensures 0 <= IndexInBlock(r, c) < Size
      ensures BlockIndex(r, c) == br * BlocksAcross + bc ==>
        cells[IndexInBlock(r, c)] == board[r, c] &&
        BlockStartRow(r) == br * BlockRows && BlockStartCol(c) == bc * BlockCols
      ensures BlockIndex(r, c) != br * BlocksAcross + bc ==> forall k :: 0 <= k < Size ==> cells[k] != board[r, c]
    {
      BlockOfCell(br, bc, r, c);
      if BlockIndex(r, c) != br * BlocksAcross + bc {
        forall k | 0 <= k < Size ensures cells[k] != board[r, c] {
          BlockOfOffset(br, bc, k);
          var i, j := br * BlockRows + k / BlockCols, bc * BlockCols + k % BlockCols;
          assert (i, j) != (r, c);
          assert board[i, j].row == i && board[i, j].col == j;
        }
      }
    }

    /** First pass of the line validator: how often each non-zero value
        occurs among the cells. */
    method CountValues(cells: array<Cell?>) returns (valueCount: map<int, int>)
      requires cells.Length == Size
      requires forall k :: 0 <= k < Size ==> cells[k] != null
      ensures forall v :: v in valueCount <==> v != 0 && v in multiset(LineOf(cells))
      ensures forall v :: v in valueCount ==> valueCount[v] == multiset(LineOf(cells))[v]
    {
      ghost var line := LineOf(cells);
      valueCount := map[];
      for k := 0 to Size
        invariant forall v :: v in valueCount <==> v != 0 && v in multiset(line[..k])
        invariant forall v :: v in valueCount ==> valueCount[v] == multiset(line[..k])[v]
      {
        assert line[..k + 1] == line[..k] + [line[k]];
        var val := cells[k].value;
        if val != 0 {
          valueCount := valueCount[val := (if val in valueCount then valueCount[val] else 0) + 1];
        }
      }
      assert line[..Size] == line;
    }

    /** Marks every cell of the line whose non-zero value occurs more than
        once in the line; marks are only ever set, never cleared. */
    method ValidateLine(cells: array<Cell?>)
      requires cells.Length == Size
      requires forall k :: 0 <= k < Size ==> cells[k] != null
      requires forall i, j :: 0 <= i < j < Size ==> cells[i] != cells[j]
      modifies set k | 0 <= k < Size :: cells[k]`isError
      ensures forall k :: 0 <= k < Size ==>
        cells[k].isError == (old(cells[k].isError) || Duplicated(old(LineOf(cells)), k))
    {
      ghost var line := LineOf(cells);
      var valueCount := CountValues(cells);
      for k := 0 to Size
        invariant forall j :: 0 <= j < Size ==> cells[j].value == line[j]
        invariant forall j :: 0 <= j < k ==> cells[j].isError == (old(cells[j].isError) || Duplicated(line, j))
        invariant forall j :: k <= j < Size ==> cells[j].isError == old(cells[j].isError)
      {
        DuplicatedIffCount(line, k);
        var val := cells[k].value;
        if val != 0 && valueCount[val] > 1 {
          cells[k].SetError(true);
        }
      }
    }

    method GetCellsInRow(row: int) returns (cells: array<Cell?>)
      requires Valid() && 0 <= row < Size
      ensures fresh(cells) && cells.Length == Size
      ensures forall k :: 0 <= k < Size ==> cells[k] == board[row, k]
    {
      cells := new Cell?[Size];
      for col := 0 to Size
        invariant forall k :: 0 <= k < col ==> cells[k] == board[row, k]
      {
        cells[col] := GetCell(row, col);
      }
    }

    method GetCellsInCol(col: int) returns (cells: array<Cell?>)
      requires Valid() && 0 <= col < Size
      ensures fresh(cells) && cells.Length == Size
      ensures forall k :: 0 <= k < Size ==> cells[k] == board[k, col]
    {
      cells := new Cell?[Size];
      for row := 0 to Size
        invariant forall k :: 0 <= k < row ==> cells[k] == board[k, col]
      {
        cells[row] := GetCell(row, col);
      }
    }

    /** The cells of the block whose top-left cell is (startRow, startCol),
        row by row. */
    method GetCellsInBlock(startRow: int, startCol: int) returns (cells: array<Cell?>)
      requires Valid()
      requires 0 <= startRow <= Size - BlockRows && 0 <= startCol <= Size - BlockCols
      ensures fresh(cells) && cells.Length == BlockRows * BlockCols
      ensures forall k :: 0 <= k < Size ==>
        cells[k] == board[startRow + k / BlockCols, startCol + k % BlockCols]
    {
      cells := new Cell?[BlockRows * BlockCols];
      var k := 0;
      for r := 0 to BlockRows
        invariant k == r * BlockCols
        invariant forall j :: 0 <= j < k ==>
          cells[j] == board[startRow + j / BlockCols, startCol + j % BlockCols]
      {
        for c := 0 to BlockCols
          invariant k == r * BlockCols + c
          invariant forall j :: 0 <= j < k ==>
            cells[j] == board[startRow + j / BlockCols, startCol + j % BlockCols]
        {
          cells[k] := GetCell(startRow + r, startCol + c);
          k := k + 1;
        }
      }
    }

    /** Revalidates, then reports whether every cell is filled and no cell
        is marked: the board is full and breaks no rule. */
    method IsBoardSolved() returns (solved: bool)
      requires Valid()
      modifies BoardCells()`isError
      ensures Values() == old(Values()) && ErrorsMatchValues()
      ensures solved <==> Complete(Values()) && Consistent(Values())
    {
      ValidateAllCells();
      for r := 0 to Size
        invariant forall i, j :: InGrid(i, j) && i < r ==> board[i, j].value != 0 && !board[i, j].isError
      {
        for c := 0 to Size
          invariant forall i, j :: InGrid(i, j) && (i < r || (i == r && j < c)) ==>
            board[i, j].value != 0 && !board[i, j].isError
        {
          var cell := board[r, c];
          if cell.value == 0 || cell.isError {
            ConsistentIffNoConflict(Values());
            return false;
          }
        }
      }
      ConsistentIffNoConflict(Values());
      return true;
    }

    /** Whether some cell is marked as an error; when the marks are current,
        that is whether the board breaks a rule. */
    method HasErrors() returns (b: bool)
      requires Valid()
      ensures b <==> exists r, c :: InGrid(r, c) && board[r, c].isError
      ensures ErrorsMatchValues() ==> (b <==> !Consistent(Values()))
    {
      ConsistentIffNoConflict(Values());
      for r := 0 to Size
        invariant forall i, j :: InGrid(i, j) && i < r ==> !board[i, j].isError
      {
        for c := 0 to Size
          invariant forall i, j :: InGrid(i, j) && (i < r || (i == r && j < c)) ==> !board[i, j].isError
        {
          if board[r, c].isError {
            return true;
          }
        }
      }
      return false;
    }

    /** A fresh 6x6 array holding the board's values. */
    method CopyValues() returns (a: array2<int>)
      requires Valid()
      ensures fresh(a) && a.Length0 == Size && a.Length1 == Size
      ensures Snapshot(a) == Values()
    {
      a := new int[Size, Size];
      for r := 0 to Size
        invariant forall i, j :: 0 <= i < r && 0 <= j < Size ==> a[i, j] == board[i, j].value
      {
        for c := 0 to Size
          invariant forall i, j :: 0 <= i < r && 0 <= j < Size ==> a[i, j] == board[i, j].value
          invariant forall j :: 0 <= j < c ==> a[r, j] == board[r, j].value
        {
          a[r, c] := GetCell(r, c).value;
        }
      }
      GridsEqual(Snapshot(a), Values());
    }

    /** The number of digits 1..6 that are legal at (row, col). */
    method CountPossibleValues(row: int, col: int) returns (count: int)
      requires Valid() && InGrid(row, col)
      ensures count == |Candidates(Values(), row, col)|
      ensures 0 <= count <= Size
    {
      var tempBoard := CopyValues();
      ghost var g := Values();
      count := CountCandidates(tempBoard, row, col);
      GridsEqual(Values(), g);
    }

    /** A hint for an arbitrary empty cell: its value in the solution the
        backtracking search finds. None when the board is full or the search
        fails. */
    method GetHint() returns (hint: Cell?)
      requires Valid()
      ensures hint == null <==> Complete(Values()) || Search(Values()).None?
      ensures hint != null ==> fresh(hint) && InGrid(hint.row, hint.col) && Values()[hint.row][hint.col] == 0
      ensures hint != null ==>
        Search(Values()).Some? && hint.value == Search(Values()).value[hint.row][hint.col] && 1 <= hint.value <= Size
    {
      ghost var g := Values();
      var emptyCells := EmptyCells();
      if |emptyCells| == 0 {
        forall r, c | InGrid(r, c) ensures g[r][c] != 0 {
          assert (r, c) !in emptyCells;
        }
        return null;
      }
      assert emptyCells[0] in emptyCells;
      var boardCopy := CopyValues();
      GridsEqual(Values(), g);
      assert Snapshot(boardCopy) == g;
      hint := HintFromSolution(boardCopy, emptyCells);
      GridsEqual(Values(), g);
    }

    /** The empty cells of the board, row by row. */
    method EmptyCells() returns (emptyCells: seq<(int, int)>)
      requires Valid()
      ensures forall p :: p in emptyCells <==> InGrid(p.0, p.1) && board[p.0, p.1].value == 0
    {
      emptyCells := [];
      for r := 0 to Size
        invariant forall p :: p in emptyCells <==> InGrid(p.0, p.1) && p.0 < r && board[p.0, p.1].value == 0
      {
        for c := 0 to Size
          invariant forall p :: p in emptyCells <==>
            InGrid(p.0, p.1) && (p.0 < r || (p.0 == r && p.1 < c)) && board[p.0, p.1].value == 0
        {
          if GetCell(r, c).value == 0 {
            emptyCells := emptyCells + [(r, c)];
          }
        }
      }
    }

    /** A hint for a most constrained empty cell: one with the fewest legal
        digits, chosen among all such cells. None when the board is full or
        the search fails. */
    method GetSmartHint() returns (hint: Cell?)
      requires Valid()
      ensures hint == null <==> Complete(Values()) || Search(Values()).None?
      ensures hint != null ==> fresh(hint) && InGrid(hint.row, hint.col) && Values()[hint.row][hint.col] == 0
      ensures hint != null ==>
        Search(Values()).Some? && hint.value == Search(Values()).value[hint.row][hint.col] && 1 <= hint.value <= Size
      ensures hint != null ==> forall r, c :: InGrid(r, c) && Values()[r][c] == 0 ==>
        |Candidates(Values(), hint.row, hint.col)| <= |Candidates(Values(), r, c)|
    {
      ghost var g := Values();
      var bestCells, minOptions := MostConstrainedCells();
      GridsEqual(Values(), g);
      ScanFinished(g, bestCells, minOptions);
      if bestCells == [] {
        return null;
      }
      var boardCopy := CopyValues();
      GridsEqual(Values(), g);
      assert Snapshot(boardCopy) == g;
      hint := HintFromSolution(boardCopy, bestCells);
      GridsEqual(Values(), g);
    }

    /** The empty cells with the fewest candidates, row by row, and that
        number; no cells and Size + 1 when the board is full. */
    method MostConstrainedCells() returns (bestCells: seq<(int, int)>, minOptions: int)
      requires Valid()
      ensures SmartScan(Values(), bestCells, minOptions, Size, 0)
    {
      ghost var g := Values();
      minOptions := Size + 1;
      bestCells := [];
      for r := 0 to Size
        invariant Values() == g
        invariant SmartScan(g, bestCells, minOptions, r, 0)
      {
        for c := 0 to Size
          invariant Values() == g
          invariant SmartScan(g, bestCells, minOptions, r, c)
        {
          bestCells, minOptions := ScanCell(g, r, c, bestCells, minOptions);
        }
        assert Rank(r, Size) == Rank(r + 1, 0);
      }
    }

    /** One step of the scan: an empty cell with fewer candidates than the
        best so far restarts the list, one with as many joins it. */
    method ScanCell(ghost g: Grid, r: int, c: int, best: seq<(int, int)>, minOptions: int)
      returns (best': seq<(int, int)>, minOptions': int)
      requires Valid() && Values() == g && InGrid(r, c)
      requires SmartScan(g, best, minOptions, r, c)
      ensures Values() == g
      ensures SmartScan(g, best', minOptions', r, c + 1)
    {
      best', minOptions' := best, minOptions;
      if GetCell(r, c).value == 0 {
        var possibleCount := CountPossibleValues(r, c);
        GridsEqual(Values(), g);
        if possibleCount < minOptions {
          minOptions' := possibleCount;
          best' := [(r, c)];
          ScanRestart(g, best, minOptions, r, c);
        } else if possibleCount == minOptions {
          best' := best + [(r, c)];
          ScanJoin(g, best, minOptions, r, c);
        } else {
          ScanSkip(g, best, minOptions, r, c);
        }
      } else {
        ScanSkip(g, best, minOptions, r, c);
      }
    }
  }

  /** The scan of the smart hint has seen the cells before (r, c) in
      row-major order: best holds exactly the empty cells seen so far whose
      candidate count is minOptions (all of them), and no empty cell seen has
      fewer. */
  ghost predicate SmartScan(g: Grid, best: seq<(int, int)>, minOptions: int, r: int, c: int) {
    && (forall p :: p in best ==> InGrid(p.0, p.1) && g[p.0][p.1] == 0 && |Candidates(g, p.0, p.1)| == minOptions)
    && (forall i, j :: InGrid(i, j) && Rank(i, j) < Rank(r, c) && g[i][j] == 0 ==> minOptions <= |Candidates(g, i, j)|)
    && (forall i, j :: InGrid(i, j) && Rank(i, j) < Rank(r, c) && g[i][j] == 0 && |Candidates(g, i, j)| == minOptions ==>
          (i, j) in best)
    && (best == [] ==> minOptions == Size + 1)
    && (best == [] ==> forall i, j :: InGrid(i, j) && Rank(i, j) < Rank(r, c) ==> g[i][j] != 0)
  }
  /** Cells before (i, j) in row-major order are those before (r, c) and
      (r, c) itself, when (i, j) is right after (r, c). */
  lemma RankNext(r: int, c: int, i: int, j: int)
    requires InGrid(r, c) && InGrid(i, j)
    ensures Rank(i, j) < Rank(r, c + 1) <==> Rank(i, j) < Rank(r, c) || (i == r && j == c)
  {
  }

  /** A filled cell, or one with more candidates than the best so far, leaves
      the scan's result as it is. */
  lemma ScanSkip(g: Grid, best: seq<(int, int)>, minOptions: int, r: int, c: int)
    requires InGrid(r, c) && SmartScan(g, best, minOptions, r, c)
    requires g[r][c] == 0 ==> minOptions < |Candidates(g, r, c)|
    ensures SmartScan(g, best, minOptions, r, c + 1)
  {
    CandidatesBelowBound(g, r, c, Size + 1);
    forall i, j | InGrid(i, j) && Rank(i, j) < Rank(r, c + 1)
      ensures Rank(i, j) < Rank(r, c) || (i == r && j == c)
    {
      RankNext(r, c, i, j);
    }
  }

  /** An empty cell with fewer candidates than the best so far becomes the
      only best cell. */
  lemma ScanRestart(g: Grid, best: seq<(int, int)>, minOptions: int, r: int, c: int)
    requires InGrid(r, c) && SmartScan(g, best, minOptions, r, c)
    requires g[r][c] == 0 && |Candidates(g, r, c)| < minOptions
    ensures SmartScan(g, [(r, c)], |Candidates(g, r, c)|, r, c + 1)
  {
    forall i, j | InGrid(i, j) && Rank(i, j) < Rank(r, c + 1)
      ensures Rank(i, j) < Rank(r, c) || (i == r && j == c)
    {
      RankNext(r, c, i, j);
    }
  }

  /** A finished scan lists no cell exactly when the board is full; each cell
      it lists is empty with no more candidates than any empty cell, and every
      empty cell with that many candidates is listed. */
  lemma ScanFinished(g: Grid, best: seq<(int, int)>, minOptions: int)
    requires SmartScan(g, best, minOptions, Size, 0)
    ensures best == [] <==> Complete(g)
    ensures forall p :: p in best ==> InGrid(p.0, p.1) && g[p.0][p.1] == 0
    ensures forall p, r, c :: p in best && InGrid(r, c) && g[r][c] == 0 ==>
      |Candidates(g, p.0, p.1)| <= |Candidates(g, r, c)|
    ensures forall p, r, c ::
      p in best && InGrid(r, c) && g[r][c] == 0 && |Candidates(g, r, c)| == |Candidates(g, p.0, p.1)|
      ==> (r, c) in best
  {
    forall r, c | InGrid(r, c) ensures Rank(r, c) < Rank(Size, 0) {
    }
    if best != [] {
      assert best[0] in best;
    }
  }

  /** An empty cell with as many candidates as the best so far joins them. */
  lemma ScanJoin(g: Grid, best: seq<(int, int)>, minOptions: int, r: int, c: int)
    requires InGrid(r, c) && SmartScan(g, best, minOptions, r, c)
    requires g[r][c] == 0 && |Candidates(g, r, c)| == minOptions
    ensures SmartScan(g, best + [(r, c)], minOptions, r, c + 1)
  {
    CandidatesBelowBound(g, r, c, Size + 1);
    forall i, j | InGrid(i, j) && Rank(i, j) < Rank(r, c + 1)
      ensures Rank(i, j) < Rank(r, c) || (i == r && j == c)
    {
      RankNext(r, c, i, j);
    }
  }

}
