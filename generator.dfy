/** Puzzle generation: relabel a fixed solved grid through a shuffle of the
    digits 1..6, then keep exactly two clue cells in each 2x3 block. The
    shuffles themselves are inputs here (they stand for the random draws). */
module Generator {
  import opened Rules

  /** The solved grid every puzzle is derived from. */
  const Template: Grid := [
    [1, 2, 3, 4, 5, 6],
    [4, 5, 6, 1, 2, 3],
    [2, 3, 1, 5, 6, 4],
    [5, 6, 4, 2, 3, 1],
    [3, 1, 2, 6, 4, 5],
    [6, 4, 5, 3, 1, 2]
  ]

  /** Clues kept per block. */
  const CluesPerBlock := 2

  /** The shuffled list 1..6: digit d is relabelled to perm[d - 1]. */
  predicate IsDigitShuffle(perm: seq<int>) {
    && |perm| == Size
    && (forall i :: 0 <= i < Size ==> 1 <= perm[i] <= Size)
    && (forall i, j :: 0 <= i < j < Size ==> perm[i] != perm[j])
  }

  /** A shuffle of the six positions of one block (indexes 0..5 into the
      block's positions listed row by row). */
  predicate IsPositionShuffle(order: seq<int>) {
    && |order| == Size
    && (forall i :: 0 <= i < Size ==> 0 <= order[i] < Size)
    && (forall i, j :: 0 <= i < j < Size ==> order[i] != order[j])
  }

  /** One position shuffle per block, blocks numbered in the order the
      generator visits them: block row by block row, left to right. */
  predicate AreBlockShuffles(shuffles: seq<seq<int>>) {
    |shuffles| == Size && forall b :: 0 <= b < Size ==> IsPositionShuffle(shuffles[b])
  }

  /** Blocks per row of blocks. */
  const BlocksAcross := Size / BlockCols

  /** Number of the block holding (r, c), in visiting order. */
  function BlockIndex(r: int, c: int): int {
    (r / BlockRows) * BlocksAcross + c / BlockCols
  }

  /** The cell at position k (0..5) of block b. */
  function BlockCell(b: int, k: int): (int, int) {
    ((b / BlocksAcross) * BlockRows + k / BlockCols, (b % BlocksAcross) * BlockCols + k % BlockCols)
  }

  lemma BlockCellInverse(r: int, c: int)
    requires InGrid(r, c)
    ensures 0 <= BlockIndex(r, c) < Size && 0 <= IndexInBlock(r, c) < Size
    ensures BlockCell(BlockIndex(r, c), IndexInBlock(r, c)) == (r, c)
  {
    var q, p := r / 2, c / 3;
    var b, k := BlockIndex(r, c), IndexInBlock(r, c);
    assert b == 2 * q + p && k == 3 * (r % 2) + c % 3;
    DivByTwo(b, q, p);
    DivByThree(k, r % 2, c % 3);
  }

  lemma DivByTwo(x: int, q: int, m: int)
    requires x == 2 * q + m && 0 <= m < 2
    ensures x / 2 == q && x % 2 == m
  {
  }

  lemma DivByThree(x: int, q: int, m: int)
    requires x == 3 * q + m && 0 <= m < 3
    ensures x / 3 == q && x % 3 == m
  {
  }

  lemma BlockCellPlacement(b: int, k: int)
    requires 0 <= b < Size && 0 <= k < Size
    ensures InGrid(BlockCell(b, k).0, BlockCell(b, k).1)
    ensures BlockIndex(BlockCell(b, k).0, BlockCell(b, k).1) == b
    ensures IndexInBlock(BlockCell(b, k).0, BlockCell(b, k).1) == k
  {
    var (r, c) := BlockCell(b, k);
    assert r == 2 * (b / 2) + k / 3 && c == 3 * (b % 2) + k % 3;
    DivByTwo(r, b / 2, k / 3);
    DivByThree(c, b % 2, k % 3);
  }

  /** The template with every digit relabelled through perm. */
  function Relabel(perm: seq<int>, g: Grid): (h: Grid)
    requires |perm| == Size
    requires forall r, c :: 0 <= r < Size && 0 <= c < Size ==> 1 <= g[r][c] <= Size
  {
    seq(Size, r requires 0 <= r < Size => seq(Size, c requires 0 <= c < Size => perm[g[r][c] - 1]))
  }

  function Solved(perm: seq<int>): Grid
    requires IsDigitShuffle(perm)
  {
    TemplateIsSolved();
    Relabel(perm, Template)
  }

  /** (r, c) is among the first two shuffled positions of its block. */
  predicate IsClue(shuffles: seq<seq<int>>, r: int, c: int)
    requires AreBlockShuffles(shuffles) && InGrid(r, c)
  {
    BlockCellInverse(r, c);
    var order := shuffles[BlockIndex(r, c)];
    IndexInBlock(r, c) == order[0] || IndexInBlock(r, c) == order[1]
  }

  /** The generated puzzle: clue cells carry the relabelled solution, the
      rest are empty. */
  function Puzzle(perm: seq<int>, shuffles: seq<seq<int>>): Grid
    requires IsDigitShuffle(perm) && AreBlockShuffles(shuffles)
  {
    seq(Size, r requires 0 <= r < Size =>
      seq(Size, c requires 0 <= c < Size =>
        if IsClue(shuffles, r, c) then Solved(perm)[r][c] else 0))
  }

  // ---------------------------------------------------------------------
  // The template and its relabellings are solutions

  lemma TemplateIsSolved()
    ensures forall r, c :: InGrid(r, c) ==> 1 <= Template[r][c] <= Size
    ensures Consistent(Template)
  {
    forall r1, c1, r2, c2 | InGrid(r1, c1) && InGrid(r2, c2) && Peers(r1, c1, r2, c2)
      ensures Template[r1][c1] != Template[r2][c2]
    {
      TemplatePeersDiffer(r1, c1, r2, c2);
    }
  }

  lemma TemplatePeersDiffer(r1: int, c1: int, r2: int, c2: int)
    requires InGrid(r1, c1) && InGrid(r2, c2) && Peers(r1, c1, r2, c2)
    ensures Template[r1][c1] != Template[r2][c2]
  {
    if r1 == r2 {
      TemplateRowDistinct(r1, c1, c2);
    } else if c1 == c2 {
      TemplateColDistinct(c1, r1, r2);
    } else {
      TemplateBlockDistinct(r1, c1, r2, c2);
    }
  }

  lemma TemplateRowDistinct(r: int, c1: int, c2: int)
    requires InGrid(r, c1) && InGrid(r, c2) && c1 != c2
    ensures Template[r][c1] != Template[r][c2]
  {
  }

  lemma TemplateColDistinct(c: int, r1: int, r2: int)
    requires InGrid(r1, c) && InGrid(r2, c) && r1 != r2
    ensures Template[r1][c] != Template[r2][c]
  {
  }

  lemma TemplateBlockDistinct(r1: int, c1: int, r2: int, c2: int)
    requires InGrid(r1, c1) && InGrid(r2, c2) && (r1 != r2 || c1 != c2) && SameBlock(r1, c1, r2, c2)
    ensures Template[r1][c1] != Template[r2][c2]
  {
    var sr, sc := r1 - r1 % 2, c1 - c1 % 3;
    assert sr == r2 - r2 % 2 && sc == c2 - c2 % 3;
    assert sr <= r1 <= sr + 1 && sr <= r2 <= sr + 1;
    assert sc <= c1 <= sc + 2 && sc <= c2 <= sc + 2;
  }

  /** Relabelling a solution through a digit shuffle gives a solution. */
  lemma SolvedIsSolution(perm: seq<int>)
    requires IsDigitShuffle(perm)
    ensures forall r, c :: InGrid(r, c) ==> 1 <= Solved(perm)[r][c] <= Size
    ensures Consistent(Solved(perm))
  {
    TemplateIsSolved();
    var s := Solved(perm);
    forall r1, c1, r2, c2 | InGrid(r1, c1) && InGrid(r2, c2) && Peers(r1, c1, r2, c2)
      ensures s[r1][c1] != s[r2][c2]
    {
      assert Template[r1][c1] != Template[r2][c2];
      assert s[r1][c1] == perm[Template[r1][c1] - 1] && s[r2][c2] == perm[Template[r2][c2] - 1];
    }
  }

  // ---------------------------------------------------------------------
  // What a generated puzzle looks like

  /** Clues are exactly the chosen cells, each carries the relabelled
      solution's value, and the relabelled solution completes the puzzle. */
  lemma PuzzleIsSolvable(perm: seq<int>, shuffles: seq<seq<int>>)
    requires IsDigitShuffle(perm) && AreBlockShuffles(shuffles)
    ensures forall r, c :: InGrid(r, c) ==>
      (Puzzle(perm, shuffles)[r][c] != 0 <==> IsClue(shuffles, r, c))
    ensures forall r, c :: InGrid(r, c) && Puzzle(perm, shuffles)[r][c] != 0 ==>
      Puzzle(perm, shuffles)[r][c] == Solved(perm)[r][c]
    ensures SolutionOf(Puzzle(perm, shuffles), Solved(perm))
    ensures Consistent(Puzzle(perm, shuffles))
  {
    SolvedIsSolution(perm);
    var p, s := Puzzle(perm, shuffles), Solved(perm);
    forall r1, c1, r2, c2 | InGrid(r1, c1) && InGrid(r2, c2) && Peers(r1, c1, r2, c2) && p[r1][c1] != 0
      ensures p[r1][c1] != p[r2][c2]
    {
      assert s[r1][c1] != s[r2][c2];
    }
  }

  /** The generated puzzle raises no error mark anywhere. */
  lemma PuzzleHasNoConflict(perm: seq<int>, shuffles: seq<seq<int>>)
    requires IsDigitShuffle(perm) && AreBlockShuffles(shuffles)
    ensures forall r, c :: InGrid(r, c) ==> !Conflict(Puzzle(perm, shuffles), r, c)
  {
    PuzzleIsSolvable(perm, shuffles);
    ConsistentIffNoConflict(Puzzle(perm, shuffles));
  }

  ghost function Clues(g: Grid): set<(int, int)> {
    set r, c | 0 <= r < Size && 0 <= c < Size && g[r][c] != 0 :: (r, c)
  }

  ghost function BlockCells(b: int): set<(int, int)> {
    set r, c | 0 <= r < Size && 0 <= c < Size && BlockIndex(r, c) == b :: (r, c)
  }

  /** The clues of block b are the two cells its shuffle puts first. */
  lemma BlockClues(perm: seq<int>, shuffles: seq<seq<int>>, b: int)
    requires IsDigitShuffle(perm) && AreBlockShuffles(shuffles) && 0 <= b < Size
    ensures Clues(Puzzle(perm, shuffles)) * BlockCells(b) ==
      {BlockCell(b, shuffles[b][0]), BlockCell(b, shuffles[b][1])}
  {
    var p := Puzzle(perm, shuffles);
    var order := shuffles[b];
    SolvedIsSolution(perm);
    forall x | x in Clues(p) * BlockCells(b)
      ensures x == BlockCell(b, order[0]) || x == BlockCell(b, order[1])
    {
      BlockCellInverse(x.0, x.1);
    }
    BlockCellPlacement(b, order[0]);
    BlockCellPlacement(b, order[1]);
    assert BlockCell(b, order[0]) in Clues(p) * BlockCells(b);
    assert BlockCell(b, order[1]) in Clues(p) * BlockCells(b);
  }

  /** Every block of a generated puzzle holds exactly two clues. */
  lemma TwoCluesPerBlock(perm: seq<int>, shuffles: seq<seq<int>>, b: int)
    requires IsDigitShuffle(perm) && AreBlockShuffles(shuffles) && 0 <= b < Size
    ensures |Clues(Puzzle(perm, shuffles)) * BlockCells(b)| == CluesPerBlock
  {
    BlockClues(perm, shuffles, b);
    BlockCellPlacement(b, shuffles[b][0]);
    BlockCellPlacement(b, shuffles[b][1]);
    assert BlockCell(b, shuffles[b][0]) != BlockCell(b, shuffles[b][1]);
  }

  /** The union of the first n sets of parts. */
  ghost function UnionBelow(parts: seq<set<(int, int)>>, n: int): set<(int, int)>
    requires n <= |parts|
    decreases n
  {
    if n <= 0 then {} else UnionBelow(parts, n - 1) + parts[n - 1]
  }

  /** Everything in the union of the first n parts lies in one of them. */
  lemma {:induction false} UnionBelowPart(parts: seq<set<(int, int)>>, n: int, x: (int, int))
    returns (b: int)
    requires n <= |parts| && x in UnionBelow(parts, n)
    ensures 0 <= b < n && x in parts[b]
    decreases n
  {
    if x in parts[n - 1] {
      b := n - 1;
    } else {
      b := UnionBelowPart(parts, n - 1, x);
    }
  }

  /** Every part below n is contained in the union of the first n parts. */
  lemma {:induction false} UnionBelowIncludes(parts: seq<set<(int, int)>>, n: int, b: int, x: (int, int))
    requires 0 <= b < n <= |parts| && x in parts[b]
    ensures x in UnionBelow(parts, n)
    decreases n
  {
    if b < n - 1 {
      UnionBelowIncludes(parts, n - 1, b, x);
    }
  }

  /** n pairwise disjoint parts of k elements each hold k * n elements. */
  lemma {:induction false} UnionBelowSize(parts: seq<set<(int, int)>>, n: int, k: int)
    requires 0 <= n <= |parts|
    requires forall b :: 0 <= b < n ==> |parts[b]| == k
    requires forall b, b' :: 0 <= b < b' < n ==> parts[b] !! parts[b']
    ensures |UnionBelow(parts, n)| == k * n
    decreases n
  {
    if n > 0 {
      var older, newer := UnionBelow(parts, n - 1), parts[n - 1];
      assert |older| == k * (n - 1) by {
        UnionBelowSize(parts, n - 1, k);
      }
      assert |older + newer| == |older| + |newer| by {
        forall x | x in older ensures x !in newer {
          var b := UnionBelowPart(parts, n - 1, x);
          assert parts[b] !! parts[n - 1];
        }
        DisjointUnionSize(older, newer);
      }
      MulStep(k, n);
    }
  }

  lemma MulStep(k: int, n: int)
    ensures k * n == k * (n - 1) + k
  {
  }

  lemma DisjointUnionSize(a: set<(int, int)>, b: set<(int, int)>)
    requires forall x :: x in a ==> x !in b
    ensures |a + b| == |a| + |b|
  {
    assert a * b == {};
  }

  /** The clues of a grid, block by block. */
  ghost function BlockClueParts(g: Grid): (parts: seq<set<(int, int)>>)
    ensures |parts| == Size
  {
    seq(Size, b => Clues(g) * BlockCells(b))
  }

  lemma BlockCluePartsDisjoint(g: Grid)
    ensures forall b, b' :: 0 <= b < b' < Size ==> BlockClueParts(g)[b] !! BlockClueParts(g)[b']
  {
  }

  lemma BlockCluePartsCover(g: Grid)
    ensures Clues(g) == UnionBelow(BlockClueParts(g), Size)
  {
    var parts := BlockClueParts(g);
    forall x | x in Clues(g) ensures x in UnionBelow(parts, Size) {
      BlockCellInverse(x.0, x.1);
      var b := BlockIndex(x.0, x.1);
      assert x in parts[b];
      UnionBelowIncludes(parts, Size, b, x);
    }
    forall x | x in UnionBelow(parts, Size) ensures x in Clues(g) {
      var b := UnionBelowPart(parts, Size, x);
    }
  }

  /** A generated puzzle has 12 clues in all. */
  lemma TwelveClues(perm: seq<int>, shuffles: seq<seq<int>>)
    requires IsDigitShuffle(perm) && AreBlockShuffles(shuffles)
    ensures |Clues(Puzzle(perm, shuffles))| == CluesPerBlock * Size
  {
    var p := Puzzle(perm, shuffles);
    forall b | 0 <= b < Size ensures |Clues(p) * BlockCells(b)| == CluesPerBlock {
      TwoCluesPerBlock(perm, shuffles, b);
    }
    CluesTotal(p);
  }

  /** Two clues in each of the six blocks make twelve clues in all. */
  lemma CluesTotal(g: Grid)
    requires forall b :: 0 <= b < Size ==> |Clues(g) * BlockCells(b)| == CluesPerBlock
    ensures |Clues(g)| == CluesPerBlock * Size
  {
    BlockCluePartsDisjoint(g);
    UnionBelowSize(BlockClueParts(g), Size, CluesPerBlock);
    BlockCluePartsCover(g);
  }
}
