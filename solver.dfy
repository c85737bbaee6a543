/** The backtracking solver and its legality test. Both work on a plain 6x6
    value array (a copy of the board's values); clue flags play no part. */
module Solver {
  import opened Rules

  datatype Option<T> = None | Some(value: T)

  /** The values held by a 6x6 array, as a grid. */
  ghost function Snapshot(a: array2<int>): (g: Grid)
    requires a.Length0 == Size && a.Length1 == Size
    reads a
    ensures forall r, c :: InGrid(r, c) ==> g[r][c] == a[r, c]
  {
    seq(Size, r requires 0 <= r < Size reads a =>
      seq(Size, c requires 0 <= c < Size reads a => a[r, c]))
  }

  lemma GridsEqual(g: Grid, h: Grid)
    requires forall r, c :: InGrid(r, c) ==> g[r][c] == h[r][c]
    ensures g == h
  {
    forall r | 0 <= r < Size ensures g[r] == h[r] {
      assert forall c :: 0 <= c < Size ==> g[r][c] == h[r][c];
    }
  }

  /** The empty cells of g; the search measure. */
  ghost function Empties(g: Grid): set<(int, int)> {
    set r, c | 0 <= r < Size && 0 <= c < Size && g[r][c] == 0 :: (r, c)
  }

  lemma EmptiesShrink(g: Grid, r: int, c: int, num: int)
    requires InGrid(r, c) && g[r][c] == 0 && num != 0
    ensures Empties(Place(g, r, c, num)) < Empties(g)
  {
    assert (r, c) in Empties(g);
    assert (r, c) !in Empties(Place(g, r, c, num));
  }

  /** Row-major rank of a cell. */
  function Rank(r: int, c: int): int { r * Size + c }

  /** The first empty cell at or after (r, c) in row-major order. */
  function FindEmpty(g: Grid, r: int, c: int): (p: Option<(int, int)>)
    requires 0 <= r <= Size && 0 <= c <= Size
    decreases |g| - r, Size - c
    ensures p.Some? ==> InGrid(p.value.0, p.value.1) && g[p.value.0][p.value.1] == 0
  {
    if r == Size then None
    else if c == Size then FindEmpty(g, r + 1, 0)
    else if g[r][c] == 0 then Some((r, c))
    else FindEmpty(g, r, c + 1)
  }

  /** FindEmpty returns the first empty cell at or after (r, c): every cell
      ranked between them is filled, and None means no empty cell is left. */
  lemma {:induction false} FindEmptyIsFirst(g: Grid, r: int, c: int)
    requires 0 <= r <= Size && 0 <= c <= Size
    decreases Size - r, Size - c
    ensures var p := FindEmpty(g, r, c);
      p.Some? ==> Rank(r, c) <= Rank(p.value.0, p.value.1)
    ensures var p := FindEmpty(g, r, c);
      forall i, j ::
        (InGrid(i, j) && Rank(r, c) <= Rank(i, j) && (p.Some? ==> Rank(i, j) < Rank(p.value.0, p.value.1)))
        ==> g[i][j] != 0
  {
    if r == Size {
    } else if c == Size {
      FindEmptyIsFirst(g, r + 1, 0);
    } else if g[r][c] != 0 {
      FindEmptyIsFirst(g, r, c + 1);
    }
  }

  /** Reference definition of the search: fill the first empty cell in
      row-major order with the first digit 1..6 that is safe there and whose
      completion succeeds; fail when no digit does. */
  function Search(g: Grid): Option<Grid>
    decreases Empties(g), 1
  {
    match FindEmpty(g, 0, 0)
    case None => Some(g)
    case Some(p) => TryFrom(g, p.0, p.1, 1)
  }

  /** Digits num..6 tried in turn at the empty cell (r, c). */
  function TryFrom(g: Grid, r: int, c: int, num: int): Option<Grid>
    requires InGrid(r, c) && g[r][c] == 0 && 1 <= num
    decreases Empties(g), 0, Size + 1 - num
  {
    if num > Size then None
    else if Safe(g, r, c, num) then
      EmptiesShrink(g, r, c, num);
      match Search(Place(g, r, c, num))
      case Some(s) => Some(s)
      case None => TryFrom(g, r, c, num + 1)
    else TryFrom(g, r, c, num + 1)
  }

  // ---------------------------------------------------------------------
  // Soundness and completeness of the search

  /** Each empty cell of g holds a digit 1..6 in s. */
  ghost predicate FillsWithDigits(g: Grid, s: Grid) {
    forall r, c :: InGrid(r, c) && g[r][c] == 0 ==> 1 <= s[r][c] <= Size
  }

  /** A grid the search returns is complete, keeps the given entries, fills
      the gaps with digits, and is consistent when the input was. */
  lemma {:induction false} SearchSound(g: Grid)
    requires Search(g).Some?
    ensures Complete(Search(g).value) && Extends(g, Search(g).value)
    ensures FillsWithDigits(g, Search(g).value)
    ensures Consistent(g) ==> SolutionOf(g, Search(g).value)
    decreases Empties(g), 1
  {
    match FindEmpty(g, 0, 0)
    case None => FindEmptyIsFirst(g, 0, 0);
    case Some(p) => TryFromSound(g, p.0, p.1, 1);
  }

  lemma {:induction false} TryFromSound(g: Grid, r: int, c: int, num: int)
    requires InGrid(r, c) && g[r][c] == 0 && 1 <= num
    requires TryFrom(g, r, c, num).Some?
    ensures Complete(TryFrom(g, r, c, num).value) && Extends(g, TryFrom(g, r, c, num).value)
    ensures FillsWithDigits(g, TryFrom(g, r, c, num).value)
    ensures Consistent(g) ==> SolutionOf(g, TryFrom(g, r, c, num).value)
    decreases Empties(g), 0, 0
  {
    var d := TryFromWitness(g, r, c, num);
    PlacedSound(g, r, c, d);
  }

  /** A successful TryFrom is the search after placing some safe digit d
      at or above num. */
  lemma {:induction false} TryFromWitness(g: Grid, r: int, c: int, num: int) returns (d: int)
    requires InGrid(r, c) && g[r][c] == 0 && 1 <= num
    requires TryFrom(g, r, c, num).Some?
    ensures num <= d <= Size && Safe(g, r, c, d) && Search(Place(g, r, c, d)).Some?
    ensures TryFrom(g, r, c, num) == Search(Place(g, r, c, d))
    decreases Size + 1 - num
  {
    if Safe(g, r, c, num) && Search(Place(g, r, c, num)).Some? {
      TryFromHit(g, r, c, num);
      d := num;
    } else {
      TryFromMiss(g, r, c, num);
      d := TryFromWitness(g, r, c, num + 1);
    }
  }

  /** What the search returns after a safe placement is a sound answer for
      the grid before the placement. */
  lemma {:induction false} PlacedSound(g: Grid, r: int, c: int, num: int)
    requires InGrid(r, c) && g[r][c] == 0 && 1 <= num <= Size
    requires Safe(g, r, c, num) && Search(Place(g, r, c, num)).Some?
    ensures var s := Search(Place(g, r, c, num)).value;
      Complete(s) && Extends(g, s) && FillsWithDigits(g, s) && (Consistent(g) ==> SolutionOf(g, s))
    decreases Empties(g), 0, 0, 0
  {
    var h := Place(g, r, c, num);
    EmptiesShrink(g, r, c, num);
    PlaceSafeKeepsConsistent(g, r, c, num);
    SearchSound(h);
  }

  /** If any solution extends g, the search finds one. */
  lemma {:induction false} SearchComplete(g: Grid, s: Grid)
    requires SolutionOf(g, s)
    ensures Search(g).Some?
    decreases Empties(g), 1
  {
    match FindEmpty(g, 0, 0)
    case None =>
    case Some(p) =>
      TryFromSolutionDigit(g, p.0, p.1, s);
      TryFromReaches(g, p.0, p.1, 1, s[p.0][p.1]);
  }

  /** Trying the digit the solution holds succeeds. */
  lemma {:induction false} TryFromSolutionDigit(g: Grid, r: int, c: int, s: Grid)
    requires InGrid(r, c) && g[r][c] == 0 && SolutionOf(g, s)
    ensures 1 <= s[r][c] <= Size && TryFrom(g, r, c, s[r][c]).Some?
    decreases Empties(g), 0
  {
    var num := s[r][c];
    SolutionDigitFits(g, r, c, s);
    EmptiesShrink(g, r, c, num);
    SearchComplete(Place(g, r, c, num), s);
  }

  /** Starting from a smaller digit, the search succeeds whenever it would
      succeed from digit d: it either stops earlier or reaches d. */
  lemma {:induction false} TryFromReaches(g: Grid, r: int, c: int, num: int, d: int)
    requires InGrid(r, c) && g[r][c] == 0 && 1 <= num <= d
    requires TryFrom(g, r, c, d).Some?
    ensures TryFrom(g, r, c, num).Some?
    decreases d - num
  {
    if num < d {
      if Safe(g, r, c, num) && Search(Place(g, r, c, num)).Some? {
        TryFromHit(g, r, c, num);
      } else {
        TryFromMiss(g, r, c, num);
        TryFromReaches(g, r, c, num + 1, d);
      }
    }
  }

  /** The digit a solution puts in an empty cell is safe there, and the
      solution still completes the grid with that digit placed. */
  lemma SolutionDigitFits(g: Grid, r: int, c: int, s: Grid)
    requires InGrid(r, c) && g[r][c] == 0 && SolutionOf(g, s)
    ensures Safe(g, r, c, s[r][c])
    ensures SolutionOf(Place(g, r, c, s[r][c]), s)
  {
    var num := s[r][c];
    SafeIffNoPeerHolds(g, r, c, num);
    forall i, j | InGrid(i, j) && Peers(r, c, i, j) ensures g[i][j] != num {
      assert g[i][j] != 0 ==> s[i][j] == g[i][j];
    }
  }

  /** For a grid without conflicts, the search succeeds exactly when the
      grid can be completed. */
  lemma SearchSucceedsIffSolvable(g: Grid)
    requires Consistent(g)
    ensures Search(g).Some? <==> Solvable(g)
  {
    if Search(g).Some? {
      SearchSound(g);
    }
    if Solvable(g) {
      var s: Grid :| SolutionOf(g, s);
      SearchComplete(g, s);
    }
  }

  // ---------------------------------------------------------------------
  // The imperative operations

  /** The source's isSafe: scans row, column and block for num. */
  method IsSafe(board: array2<int>, row: int, col: int, num: int) returns (safe: bool)
    requires board.Length0 == Size && board.Length1 == Size && InGrid(row, col)
    ensures safe == Safe(Snapshot(board), row, col, num)
  {
    ghost var g := Snapshot(board);
    var c := 0;
    while c < Size
      invariant 0 <= c <= Size
      invariant forall j :: 0 <= j < c ==> board[row, j] != num
    {
      if board[row, c] == num {
        return false;
      }
      c := c + 1;
    }
    var r := 0;
    while r < Size
      invariant 0 <= r <= Size
      invariant forall i :: 0 <= i < r ==> board[i, col] != num
    {
      if board[r, col] == num {
        return false;
      }
      r := r + 1;
    }
    BlockOffsets(row, col);
    var blockStartRow := row - row % BlockRows;
    var blockStartCol := col - col % BlockCols;
    r := 0;
    while r < BlockRows
      invariant 0 <= r <= BlockRows
      invariant forall i, j ::
        (blockStartRow <= i < blockStartRow + r && blockStartCol <= j < blockStartCol + BlockCols)
        ==> board[i, j] != num
    {
      var i := blockStartRow + r;
      c := 0;
      while c < BlockCols
        invariant 0 <= c <= BlockCols
        invariant forall j :: blockStartCol <= j < blockStartCol + c ==> board[i, j] != num
      {
        if board[i, blockStartCol + c] == num {
          return false;
        }
        c := c + 1;
      }
      r := r + 1;
    }
    return true;
  }

  /** The scan at the head of the source's solve: the first cell holding 0
      in row-major order, or None when the board is full. */
  method FindFirstEmpty(board: array2<int>) returns (p: Option<(int, int)>)
    requires board.Length0 == Size && board.Length1 == Size
    ensures p == FindEmpty(Snapshot(board), 0, 0)
  {
    ghost var g := Snapshot(board);
    var r := 0;
    while r < Size
      invariant 0 <= r <= Size
      invariant FindEmpty(g, r, 0) == FindEmpty(g, 0, 0)
    {
      var c := 0;
      while c < Size
        invariant 0 <= c <= Size
        invariant FindEmpty(g, r, c) == FindEmpty(g, 0, 0)
      {
        if board[r, c] == 0 {
          FindEmptyHere(g, r, c);
          return Some((r, c));
        }
        FindEmptySkip(g, r, c);
        c := c + 1;
      }
      r := r + 1;
    }
    return None;
  }

  /** The source's solve: backtracking in place over the empty cells in
      row-major order, digits 1..6 in ascending order. On success the array
      holds the reference search's result; on failure it is restored. */
  method Solve(board: array2<int>) returns (solved: bool)
    requires board.Length0 == Size && board.Length1 == Size
    modifies board
    decreases Empties(Snapshot(board)), 2
    ensures solved == Search(old(Snapshot(board))).Some?
    ensures solved ==> Snapshot(board) == Search(old(Snapshot(board))).value
    ensures !solved ==> Snapshot(board) == old(Snapshot(board))
  {
    var empty := FindFirstEmpty(board);
    if empty.None? {
      return true;
    }
    solved := TryDigits(board, Snapshot(board), empty.value.0, empty.value.1);
  }

  /** Solve's digit loop at its first empty cell (r, c): digits 1..6 in
      ascending order until one leads to a solution. */
  method TryDigits(board: array2<int>, ghost g: Grid, r: int, c: int) returns (solved: bool)
    requires board.Length0 == Size && board.Length1 == Size && Snapshot(board) == g
    requires InGrid(r, c) && g[r][c] == 0
    modifies board
    decreases Empties(g), 1
    ensures solved == TryFrom(g, r, c, 1).Some?
    ensures solved ==> Snapshot(board) == TryFrom(g, r, c, 1).value
    ensures !solved ==> Snapshot(board) == g
  {
    var num := 1;
    while num <= Size
      invariant 1 <= num <= Size + 1
      invariant Snapshot(board) == g
      invariant TryFrom(g, r, c, num) == TryFrom(g, r, c, 1)
    {
      solved := TryDigit(board, g, r, c, num);
      if solved {
        return;
      }
      num := num + 1;
    }
    TryFromNone(g, r, c, num);
    return false;
  }

  /** One round of Solve's digit loop: when num is safe at the empty cell
      (r, c), writes it and solves the rest; on failure the cell is emptied
      again and the search moves on to the next digit. */
  method TryDigit(board: array2<int>, ghost g: Grid, r: int, c: int, num: int) returns (solved: bool)
    requires board.Length0 == Size && board.Length1 == Size && Snapshot(board) == g
    requires InGrid(r, c) && g[r][c] == 0 && 1 <= num <= Size
    modifies board
    decreases Empties(g), 0
    ensures solved ==> TryFrom(g, r, c, num) == Some(Snapshot(board))
    ensures !solved ==> TryFrom(g, r, c, num) == TryFrom(g, r, c, num + 1) && Snapshot(board) == g
  {
    var safe := IsSafe(board, r, c, num);
    if !safe {
      TryFromMiss(g, r, c, num);
      return false;
    }
    board[r, c] := num;
    GridsEqual(Snapshot(board), Place(g, r, c, num));
    EmptiesShrink(g, r, c, num);
    solved := Solve(board);
    if solved {
      TryFromHit(g, r, c, num);
    } else {
      TryFromMiss(g, r, c, num);
      board[r, c] := 0;
      GridsEqual(Snapshot(board), g);
    }
  }

  // Single unfoldings of the reference search, used by Solve's loops.

  lemma FindEmptyHere(g: Grid, r: int, c: int)
    requires InGrid(r, c) && g[r][c] == 0
    ensures FindEmpty(g, r, c) == Some((r, c))
  {
  }

  lemma FindEmptySkip(g: Grid, r: int, c: int)
    requires InGrid(r, c) && g[r][c] != 0
    ensures FindEmpty(g, r, c) == FindEmpty(g, r, c + 1)
    ensures c + 1 == Size ==> FindEmpty(g, r, c + 1) == FindEmpty(g, r + 1, 0)
  {
  }

  lemma TryFromNone(g: Grid, r: int, c: int, num: int)
    requires InGrid(r, c) && g[r][c] == 0 && num == Size + 1
    ensures TryFrom(g, r, c, num) == None
  {
  }

  lemma TryFromHit(g: Grid, r: int, c: int, num: int)
    requires InGrid(r, c) && g[r][c] == 0 && 1 <= num <= Size
    requires Safe(g, r, c, num) && Search(Place(g, r, c, num)).Some?
    ensures TryFrom(g, r, c, num) == Search(Place(g, r, c, num))
  {
  }

  lemma TryFromMiss(g: Grid, r: int, c: int, num: int)
    requires InGrid(r, c) && g[r][c] == 0 && 1 <= num <= Size
    requires !(Safe(g, r, c, num) && Search(Place(g, r, c, num)).Some?)
    ensures TryFrom(g, r, c, num) == TryFrom(g, r, c, num + 1)
    ensures num == Size ==> TryFrom(g, r, c, num + 1) == None
  {
  }
}
