/** Board geometry and the Sudoku rules of the 6x6 variant (2-row by 3-column
    blocks), stated on plain value grids. Value 0 means an empty cell. */
module Rules {

  const Size := 6
  const BlockRows := 2
  const BlockCols := 3

  /** A 6x6 grid of cell values, row-major: g[row][col]. */
  type Grid = g: seq<seq<int>> | |g| == Size && forall r :: 0 <= r < Size ==> |g[r]| == Size
    witness seq(Size, _ => seq(Size, _ => 0))

  predicate InGrid(r: int, c: int) {
    0 <= r < Size && 0 <= c < Size
  }

  /** First row and first column of the block holding (r, c). */
  function BlockStartRow(r: int): int { r - r % BlockRows }
  function BlockStartCol(c: int): int { c - c % BlockCols }

  predicate SameBlock(r1: int, c1: int, r2: int, c2: int) {
    BlockStartRow(r1) == BlockStartRow(r2) && BlockStartCol(c1) == BlockStartCol(c2)
  }

  /** Two distinct cells that share a row, a column or a block. */
  predicate Peers(r1: int, c1: int, r2: int, c2: int) {
    (r1 != r2 || c1 != c2) && (r1 == r2 || c1 == c2 || SameBlock(r1, c1, r2, c2))
  }

  /** The cells of column c, top to bottom. */
  function ColLine(g: Grid, c: int): (line: seq<int>)
    requires 0 <= c < Size
    ensures |line| == Size && forall r :: 0 <= r < Size ==> line[r] == g[r][c]
  {
    seq(Size, r requires 0 <= r < Size => g[r][c])
  }

  /** The cells of the block whose top-left cell is (sr, sc), in the order
      the validator collects them: row by row, left to right. */
  function BlockLine(g: Grid, sr: int, sc: int): (line: seq<int>)
    requires 0 <= sr <= Size - BlockRows && 0 <= sc <= Size - BlockCols
    ensures |line| == Size
  {
    seq(Size, k requires 0 <= k < Size => g[sr + k / BlockCols][sc + k % BlockCols])
  }

  /** Position of (r, c) inside its own block line. */
  function IndexInBlock(r: int, c: int): int {
    (r % BlockRows) * BlockCols + c % BlockCols
  }

  /** line[k] is non-zero and occurs again elsewhere in the line. */
  predicate Duplicated(line: seq<int>, k: int)
    requires 0 <= k < |line|
  {
    line[k] != 0 && exists j :: 0 <= j < |line| && j != k && line[j] == line[k]
  }

  /** The error condition of the validator: the value of (r, c) is repeated
      in its row, in its column or in its block. */
  predicate Conflict(g: Grid, r: int, c: int)
    requires InGrid(r, c)
  {
    RowDup(g, r, c) || ColDup(g, r, c) || BlockDup(g, r, c)
  }

  /** The value of (r, c) is repeated in its row. */
  predicate RowDup(g: Grid, r: int, c: int)
    requires InGrid(r, c)
  {
    Duplicated(g[r], c)
  }

  /** The value of (r, c) is repeated in its column. */
  predicate ColDup(g: Grid, r: int, c: int)
    requires InGrid(r, c)
  {
    Duplicated(ColLine(g, c), r)
  }

  /** The value of (r, c) is repeated in its block. */
  predicate BlockDup(g: Grid, r: int, c: int)
    requires InGrid(r, c)
  {
    Duplicated(BlockLine(g, BlockStartRow(r), BlockStartCol(c)), IndexInBlock(r, c))
  }

  /** No two peers hold the same non-zero value. */
  ghost predicate Consistent(g: Grid) {
    forall r1, c1, r2, c2 ::
      InGrid(r1, c1) && InGrid(r2, c2) && Peers(r1, c1, r2, c2) && g[r1][c1] != 0 ==> g[r1][c1] != g[r2][c2]
  }

  ghost predicate Complete(g: Grid) {
    forall r, c :: InGrid(r, c) ==> g[r][c] != 0
  }

  /** h keeps every non-zero entry of g. */
  ghost predicate Extends(g: Grid, h: Grid) {
    forall r, c :: InGrid(r, c) && g[r][c] != 0 ==> h[r][c] == g[r][c]
  }

  /** s completes g: it keeps g's entries, fills each empty cell with a digit
      1..6, and breaks no rule. */
  ghost predicate SolutionOf(g: Grid, s: Grid) {
    && Extends(g, s)
    && Consistent(s)
    && forall r, c :: InGrid(r, c) && g[r][c] == 0 ==> 1 <= s[r][c] <= Size
  }

  ghost predicate Solvable(g: Grid) {
    exists s: Grid :: SolutionOf(g, s)
  }

  /** num occurs nowhere in row r, column c, or the 2x3 block starting at
      (r - r % 2, c - c % 3). */
  predicate Safe(g: Grid, r: int, c: int, num: int)
    requires InGrid(r, c)
  {
    && (forall j :: 0 <= j < Size ==> g[r][j] != num)
    && (forall i :: 0 <= i < Size ==> g[i][c] != num)
    && (forall i, j ::
          (BlockStartRow(r) <= i < BlockStartRow(r) + BlockRows &&
           BlockStartCol(c) <= j < BlockStartCol(c) + BlockCols) ==> g[i][j] != num)
  }

  function Place(g: Grid, r: int, c: int, v: int): (h: Grid)
    requires InGrid(r, c)
    ensures h[r][c] == v
    ensures forall i, j :: InGrid(i, j) && (i != r || j != c) ==> h[i][j] == g[i][j]
  {
    g[r := g[r][c := v]]
  }

  // ---------------------------------------------------------------------
  // Facts about the geometry

  lemma BlockOffsets(r: int, c: int)
    requires InGrid(r, c)
    ensures 0 <= BlockStartRow(r) <= Size - BlockRows && BlockStartRow(r) % BlockRows == 0
    ensures 0 <= BlockStartCol(c) <= Size - BlockCols && BlockStartCol(c) % BlockCols == 0
    ensures BlockStartRow(r) <= r < BlockStartRow(r) + BlockRows
    ensures BlockStartCol(c) <= c < BlockStartCol(c) + BlockCols
    ensures 0 <= IndexInBlock(r, c) < Size
  {
  }

  /** Entry k of a block line is the cell at offset (k / 3, k % 3). */
  lemma BlockLineAt(g: Grid, r: int, c: int, k: int)
    requires InGrid(r, c) && 0 <= k < Size
    ensures 0 <= BlockStartRow(r) <= Size - BlockRows && 0 <= BlockStartCol(c) <= Size - BlockCols
    ensures var sr, sc := BlockStartRow(r), BlockStartCol(c);
      && InGrid(sr + k / BlockCols, sc + k % BlockCols)
      && SameBlock(r, c, sr + k / BlockCols, sc + k % BlockCols)
      && BlockLine(g, sr, sc)[k] == g[sr + k / BlockCols][sc + k % BlockCols]
      && (k == IndexInBlock(r, c) <==> (sr + k / BlockCols == r && sc + k % BlockCols == c))
  {
    BlockOffsets(r, c);
  }

  /** A cell of the same block appears in the block line at its own index. */
  lemma BlockLineHas(g: Grid, r: int, c: int, r2: int, c2: int)
    requires InGrid(r, c) && InGrid(r2, c2) && SameBlock(r, c, r2, c2)
    ensures 0 <= BlockStartRow(r) <= Size - BlockRows && 0 <= BlockStartCol(c) <= Size - BlockCols
    ensures 0 <= IndexInBlock(r2, c2) < Size
    ensures BlockLine(g, BlockStartRow(r), BlockStartCol(c))[IndexInBlock(r2, c2)] == g[r2][c2]
    ensures IndexInBlock(r2, c2) == IndexInBlock(r, c) <==> (r2 == r && c2 == c)
  {
    BlockOffsets(r, c);
    BlockOffsets(r2, c2);
    BlockLineAt(g, r, c, IndexInBlock(r2, c2));
  }

  // ---------------------------------------------------------------------
  // The validator's per-line test agrees with the peer relation

  /** A cell is in conflict exactly when it is non-zero and some peer holds
      the same value. */
  lemma ConflictIffPeer(g: Grid, r: int, c: int)
    requires InGrid(r, c)
    ensures Conflict(g, r, c) <==>
      g[r][c] != 0 && exists r2, c2 :: InGrid(r2, c2) && Peers(r, c, r2, c2) && g[r2][c2] == g[r][c]
  {
    if Conflict(g, r, c) {
      ConflictHasPeer(g, r, c);
    }
    if g[r][c] != 0 && exists r2, c2 :: InGrid(r2, c2) && Peers(r, c, r2, c2) && g[r2][c2] == g[r][c] {
      var r2, c2 :| InGrid(r2, c2) && Peers(r, c, r2, c2) && g[r2][c2] == g[r][c];
      PeerMakesConflict(g, r, c, r2, c2);
    }
  }

  /** A flagged cell shares its digit with some peer. */
  lemma ConflictHasPeer(g: Grid, r: int, c: int)
    requires InGrid(r, c) && Conflict(g, r, c)
    ensures g[r][c] != 0 && exists r2, c2 :: InGrid(r2, c2) && Peers(r, c, r2, c2) && g[r2][c2] == g[r][c]
  {
    BlockOffsets(r, c);
    if Duplicated(g[r], c) {
      var j :| 0 <= j < Size && j != c && g[r][j] == g[r][c];
      assert Peers(r, c, r, j);
    } else if Duplicated(ColLine(g, c), r) {
      var i :| 0 <= i < Size && i != r && ColLine(g, c)[i] == ColLine(g, c)[r];
      assert Peers(r, c, i, c);
    } else {
      var sr, sc := BlockStartRow(r), BlockStartCol(c);
      var k := IndexInBlock(r, c);
      var line := BlockLine(g, sr, sc);
      BlockLineHas(g, r, c, r, c);
      var j :| 0 <= j < Size && j != k && line[j] == line[k];
      BlockLineAt(g, r, c, j);
      assert Peers(r, c, sr + j / BlockCols, sc + j % BlockCols);
    }
  }

  /** A non-empty cell whose digit a peer repeats is flagged. */
  lemma PeerMakesConflict(g: Grid, r: int, c: int, r2: int, c2: int)
    requires InGrid(r, c) && InGrid(r2, c2) && Peers(r, c, r2, c2)
    requires g[r][c] != 0 && g[r2][c2] == g[r][c]
    ensures Conflict(g, r, c)
  {
    BlockOffsets(r, c);
    if r2 == r {
      assert g[r][c2] == g[r][c];
    } else if c2 == c {
      assert ColLine(g, c)[r2] == ColLine(g, c)[r];
    } else {
      var line := BlockLine(g, BlockStartRow(r), BlockStartCol(c));
      BlockLineHas(g, r, c, r, c);
      BlockLineHas(g, r, c, r2, c2);
      assert line[IndexInBlock(r2, c2)] == line[IndexInBlock(r, c)];
    }
  }

  /** A grid breaks no rule exactly when the validator would flag no cell. */
  lemma ConsistentIffNoConflict(g: Grid)
    ensures Consistent(g) <==> forall r, c :: InGrid(r, c) ==> !Conflict(g, r, c)
  {
    if Consistent(g) {
      forall r, c | InGrid(r, c) ensures !Conflict(g, r, c) {
        ConflictIffPeer(g, r, c);
      }
    }
    if forall r, c :: InGrid(r, c) ==> !Conflict(g, r, c) {
      forall r1, c1, r2, c2 | InGrid(r1, c1) && InGrid(r2, c2) && Peers(r1, c1, r2, c2) && g[r1][c1] != 0
        ensures g[r1][c1] != g[r2][c2]
      {
        ConflictIffPeer(g, r1, c1);
      }
    }
  }

  // ---------------------------------------------------------------------
  // Placing a legal digit

  /** Safe is the peer-based legality test: num is safe at (r, c) exactly
      when neither the cell nor any of its peers holds num. */
  lemma SafeIffNoPeerHolds(g: Grid, r: int, c: int, num: int)
    requires InGrid(r, c)
    ensures Safe(g, r, c, num) <==>
      g[r][c] != num && forall i, j :: InGrid(i, j) && Peers(r, c, i, j) ==> g[i][j] != num
  {
    BlockOffsets(r, c);
    if Safe(g, r, c, num) {
      forall i, j | InGrid(i, j) && Peers(r, c, i, j) ensures g[i][j] != num {
        if i != r && j != c {
          BlockOffsets(i, j);
        }
      }
    }
    if g[r][c] != num && forall i, j :: InGrid(i, j) && Peers(r, c, i, j) ==> g[i][j] != num {
      forall i, j | BlockStartRow(r) <= i < BlockStartRow(r) + BlockRows &&
                    BlockStartCol(c) <= j < BlockStartCol(c) + BlockCols
        ensures g[i][j] != num
      {
        assert InGrid(i, j);
        if i != r || j != c {
          assert SameBlock(r, c, i, j);
          assert Peers(r, c, i, j);
        }
      }
      forall j | 0 <= j < Size ensures g[r][j] != num {
        if j != c { assert Peers(r, c, r, j); }
      }
      forall i | 0 <= i < Size ensures g[i][c] != num {
        if i != r { assert Peers(r, c, i, c); }
      }
    }
  }

  /** Writing a safe digit into an empty cell of a consistent grid keeps it
      consistent and keeps every existing entry. */
  lemma PlaceSafeKeepsConsistent(g: Grid, r: int, c: int, num: int)
    requires InGrid(r, c) && g[r][c] == 0 && num != 0
    requires Safe(g, r, c, num)
    ensures Extends(g, Place(g, r, c, num))
    ensures Consistent(g) ==> Consistent(Place(g, r, c, num))
  {
    var h := Place(g, r, c, num);
    SafeIffNoPeerHolds(g, r, c, num);
    if Consistent(g) {
      forall r1, c1, r2, c2 | InGrid(r1, c1) && InGrid(r2, c2) && Peers(r1, c1, r2, c2) && h[r1][c1] != 0
        ensures h[r1][c1] != h[r2][c2]
      {
        if r1 == r && c1 == c {
        } else if r2 == r && c2 == c {
          assert Peers(r, c, r1, c1);
        } else {
          assert g[r1][c1] != g[r2][c2];
        }
      }
    }
  }
}
