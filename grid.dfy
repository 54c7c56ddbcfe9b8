/**
  * The board as a value: a square grid of tile values (0 = empty), the
  * reframings Flip and Transpose, the row-wise Compress and Merge, the score
  * shown by Render and the emptiness test EmptyTiles (main.c).
  */
module Grids {
  import opened RowReduce

  type Grid = seq<seq<int>>

  /** Every row is as long as the grid is high. */
  predicate IsSquare(g: Grid)
  {
    forall i :: 0 <= i < |g| ==> |g[i]| == |g|
  }

  // ---------------------------------------------------------------------
  // Reframing
  // ---------------------------------------------------------------------

  /** A row read right to left. */
  function Reverse(r: Row): (v: Row)
    ensures |v| == |r|
  {
    seq(|r|, j requires 0 <= j < |r| => r[|r| - 1 - j])
  }

  /** Flip: every row mirrored, cell [i][j] moving to [i][n-1-j]. */
  function Flip(g: Grid): (f: Grid)
    ensures |f| == |g|
    ensures forall i :: 0 <= i < |g| ==> |f[i]| == |g[i]|
  {
    seq(|g|, i requires 0 <= i < |g| => Reverse(g[i]))
  }

  /** Transpose: cell [i][j] moving to [j][i]. */
  function Transpose(g: Grid): (t: Grid)
    requires IsSquare(g)
    ensures |t| == |g| && IsSquare(t)
  {
    seq(|g|, i requires 0 <= i < |g| => seq(|g|, j requires 0 <= j < |g| => g[j][i]))
  }

  /** Compress applied to every row. */
  function CompressGrid(g: Grid): (c: Grid)
    ensures |c| == |g|
    ensures forall i :: 0 <= i < |g| ==> |c[i]| == |g[i]|
  {
    seq(|g|, i requires 0 <= i < |g| => CompressRow(g[i]))
  }

  /** The merge pass applied to every row. */
  function MergePassGrid(g: Grid): (m: Grid)
    ensures |m| == |g|
    ensures forall i :: 0 <= i < |g| ==> |m[i]| == |g[i]|
  {
    seq(|g|, i requires 0 <= i < |g| => MergePass(g[i]))
  }

  /** Merge: every row reduced to the left. */
  function MergeLeft(g: Grid): (m: Grid)
    ensures |m| == |g|
    ensures forall i :: 0 <= i < |g| ==> |m[i]| == |g[i]|
  {
    seq(|g|, i requires 0 <= i < |g| => MergeRow(g[i]))
  }

  // ---------------------------------------------------------------------
  // Observations
  // ---------------------------------------------------------------------

  /** The cells in row-major order: the order in which Render adds them up. */
  function Flat(g: Grid): (cells: Row)
    decreases |g|
  {
    if g == [] then [] else Flat(g[..|g| - 1]) + g[|g| - 1]
  }

  lemma {:induction false} FlatAppend(x: Grid, y: Grid)
    ensures Flat(x + y) == Flat(x) + Flat(y)
    decreases |y|
  {
    if y == [] {
      assert x + y == x;
    } else {
      var front := y[..|y| - 1];
      FlatAppend(x, front);
      assert (x + y)[..|x + y| - 1] == x + front;
    }
  }

  /** The score of a board split around one row. */
  lemma ScoreAround(p: Grid, r: Row, q: Grid)
    ensures Score(p + [r] + q) == Score(p) + SeqSum(r) + Score(q)
  {
    FlatAppend(p + [r], q);
    FlatAppend(p, [r]);
    assert Flat([r]) == r by {
      assert [r][..0] == [];
    }
    SeqSumAppend(Flat(p) + r, Flat(q));
    SeqSumAppend(Flat(p), r);
  }

  /** The sum of the first `a` rows is the sum of the first `a - 1` rows plus row `a - 1`. */
  lemma ScoreSnoc(g: Grid, a: nat)
    requires 0 < a <= |g|
    ensures SeqSum(Flat(g[..a])) == SeqSum(Flat(g[..a - 1])) + SeqSum(g[a - 1])
  {
    assert g[..a][..a - 1] == g[..a - 1];
    SeqSumAppend(Flat(g[..a - 1]), g[a - 1]);
  }

  /** The score: the sum of all cells. */
  function Score(g: Grid): (s: int)
  {
    SeqSum(Flat(g))
  }

  /** The values on the board, ignoring where they are. */
  function Tiles(g: Grid): (values: multiset<int>)
  {
    multiset(Flat(g))
  }

  /** EmptyTiles: some cell is empty. */
  predicate HasEmpty(g: Grid)
  {
    exists i, j :: 0 <= i < |g| && 0 <= j < |g[i]| && g[i][j] == 0
  }

  /** Every occupied cell holds a power of two. */
  predicate GridTileValues(g: Grid)
  {
    forall i :: 0 <= i < |g| ==> TileValues(g[i])
  }

  // ---------------------------------------------------------------------
  // Flip and Transpose are involutions that only permute cells
  // ---------------------------------------------------------------------

  lemma FlipInvolution(g: Grid)
    ensures Flip(Flip(g)) == g
  {
    forall i | 0 <= i < |g|
      ensures Flip(Flip(g))[i] == g[i]
    {
      assert Reverse(Reverse(g[i])) == g[i];
    }
  }

  lemma TransposeInvolution(g: Grid)
    requires IsSquare(g)
    ensures Transpose(Transpose(g)) == g
  {
    forall i | 0 <= i < |g|
      ensures Transpose(Transpose(g))[i] == g[i]
    {
    }
  }

  lemma {:induction false} ReverseTiles(r: Row)
    ensures multiset(Reverse(r)) == multiset(r)
    decreases |r|
  {
    if r != [] {
      ReverseTiles(r[1..]);
      assert Reverse(r) == Reverse(r[1..]) + [r[0]];
      assert r == [r[0]] + r[1..];
    }
  }

  lemma {:induction false} FlipTilesUpTo(g: Grid, a: nat)
    requires a <= |g|
    ensures multiset(Flat(Flip(g)[..a])) == multiset(Flat(g[..a]))
  {
    if a > 0 {
      var f := Flip(g);
      FlipTilesUpTo(g, a - 1);
      assert Flat(f[..a]) == Flat(f[..a - 1]) + Reverse(g[a - 1]) by {
        assert f[..a][..a - 1] == f[..a - 1];
      }
      assert Flat(g[..a]) == Flat(g[..a - 1]) + g[a - 1] by {
        assert g[..a][..a - 1] == g[..a - 1];
      }
      ReverseTiles(g[a - 1]);
    }
  }

  /** Flip only moves cells around: the multiset of values is unchanged. */
  lemma FlipTiles(g: Grid)
    ensures Tiles(Flip(g)) == Tiles(g)
  {
    FlipTilesUpTo(g, |g|);
    assert Flip(g)[..|g|] == Flip(g);
    assert g[..|g|] == g;
  }

  /** How many of the first `b` cells of row `s` hold `v`. */
  ghost function Occurrences(s: Row, b: nat, v: int): (k: nat)
    requires b <= |s|
  {
    if b == 0 then 0 else Occurrences(s, b - 1, v) + (if s[b - 1] == v then 1 else 0)
  }

  lemma {:induction false} OccurrencesIsMultiplicity(s: Row, b: nat, v: int)
    requires b <= |s|
    ensures Occurrences(s, b, v) == multiset(s[..b])[v]
  {
    if b > 0 {
      OccurrencesIsMultiplicity(s, b - 1, v);
      assert s[..b] == s[..b - 1] + [s[b - 1]];
    }
  }

  /** How many cells in the first `a` rows and first `b` columns hold `v`. */
  ghost function BlockOccurrences(g: Grid, a: nat, b: nat, v: int): (k: nat)
    requires IsSquare(g) && a <= |g| && b <= |g|
  {
    if a == 0 then 0 else BlockOccurrences(g, a - 1, b, v) + Occurrences(g[a - 1], b, v)
  }

  /** How many cells in the first `a` rows of column `j` hold `v`. */
  ghost function ColumnOccurrences(g: Grid, j: nat, a: nat, v: int): (k: nat)
    requires IsSquare(g) && a <= |g| && j < |g|
  {
    if a == 0 then 0 else ColumnOccurrences(g, j, a - 1, v) + (if g[a - 1][j] == v then 1 else 0)
  }

  lemma {:induction false} BlockAddColumn(g: Grid, a: nat, b: nat, v: int)
    requires IsSquare(g) && a <= |g| && b < |g|
    ensures BlockOccurrences(g, a, b + 1, v) == BlockOccurrences(g, a, b, v) + ColumnOccurrences(g, b, a, v)
  {
    if a > 0 {
      BlockAddColumn(g, a - 1, b, v);
    }
  }

  /** `t` holds the cells of `g` transposed. */
  predicate Transposed(t: Grid, g: Grid)
    requires IsSquare(t) && IsSquare(g) && |t| == |g|
  {
    forall x, y :: 0 <= x < |g| && 0 <= y < |g| ==> t[x][y] == g[y][x]
  }

  lemma {:induction false} TransposedRowIsColumn(t: Grid, g: Grid, i: nat, b: nat, v: int)
    requires IsSquare(t) && IsSquare(g) && |t| == |g| && Transposed(t, g)
    requires i < |g| && b <= |g|
    ensures Occurrences(t[i], b, v) == ColumnOccurrences(g, i, b, v)
  {
    if b > 0 {
      TransposedRowIsColumn(t, g, i, b - 1, v);
      assert t[i][b - 1] == g[b - 1][i];
    }
  }

  /** Counting the rows of the transpose is counting the columns of the board. */
  lemma {:induction false} TransposedBlock(t: Grid, g: Grid, a: nat, b: nat, v: int)
    requires IsSquare(t) && IsSquare(g) && |t| == |g| && Transposed(t, g)
    requires a <= |g| && b <= |g|
    ensures BlockOccurrences(t, a, b, v) == BlockOccurrences(g, b, a, v)
  {
    if a > 0 {
      TransposedBlock(t, g, a - 1, b, v);
      TransposedRowIsColumn(t, g, a - 1, b, v);
      BlockAddColumn(g, b, a - 1, v);
    } else {
      BlockWithoutColumns(g, b, v);
    }
  }

  lemma {:induction false} BlockWithoutColumns(g: Grid, a: nat, v: int)
    requires IsSquare(g) && a <= |g|
    ensures BlockOccurrences(g, a, 0, v) == 0
  {
    if a > 0 {
      BlockWithoutColumns(g, a - 1, v);
    }
  }

  lemma {:induction false} BlockIsTiles(g: Grid, a: nat, v: int)
    requires IsSquare(g) && a <= |g|
    ensures BlockOccurrences(g, a, |g|, v) == multiset(Flat(g[..a]))[v]
  {
    if a > 0 {
      BlockIsTiles(g, a - 1, v);
      OccurrencesIsMultiplicity(g[a - 1], |g|, v);
      assert g[..a][..a - 1] == g[..a - 1];
      assert g[a - 1][..|g|] == g[a - 1];
    }
  }

  /** Transpose only moves cells around: the multiset of values is unchanged. */
  lemma TransposeTiles(g: Grid)
    requires IsSquare(g)
    ensures Tiles(Transpose(g)) == Tiles(g)
  {
    var t := Transpose(g);
    assert Transposed(t, g);
    assert g[..|g|] == g;
    assert t[..|t|] == t;
    forall v
      ensures Tiles(t)[v] == Tiles(g)[v]
    {
      TransposedBlock(t, g, |g|, |g|, v);
      BlockIsTiles(g, |g|, v);
      BlockIsTiles(t, |t|, v);
    }
  }

  /** Boards holding the same values have the same score. */
  lemma SameTilesSameScore(g: Grid, h: Grid)
    requires Tiles(g) == Tiles(h)
    ensures Score(g) == Score(h)
  {
    PermutationSum(Flat(g), Flat(h));
  }

  lemma FlipScore(g: Grid)
    ensures Score(Flip(g)) == Score(g)
  {
    FlipTiles(g);
    SameTilesSameScore(Flip(g), g);
  }

  lemma TransposeScore(g: Grid)
    requires IsSquare(g)
    ensures Score(Transpose(g)) == Score(g)
  {
    TransposeTiles(g);
    SameTilesSameScore(Transpose(g), g);
  }

  lemma FlipHasEmpty(g: Grid)
    ensures HasEmpty(Flip(g)) <==> HasEmpty(g)
  {
    if HasEmpty(g) {
      var i, j :| 0 <= i < |g| && 0 <= j < |g[i]| && g[i][j] == 0;
      assert Flip(g)[i][|g[i]| - 1 - j] == 0;
    }
    if HasEmpty(Flip(g)) {
      var i, j :| 0 <= i < |g| && 0 <= j < |g[i]| && Flip(g)[i][j] == 0;
      assert g[i][|g[i]| - 1 - j] == 0;
    }
  }

  lemma TransposeHasEmpty(g: Grid)
    requires IsSquare(g)
    ensures HasEmpty(Transpose(g)) <==> HasEmpty(g)
  {
    if HasEmpty(g) {
      var i, j :| 0 <= i < |g| && 0 <= j < |g[i]| && g[i][j] == 0;
      assert Transpose(g)[j][i] == 0;
    }
    if HasEmpty(Transpose(g)) {
      var i, j :| 0 <= i < |g| && 0 <= j < |g| && Transpose(g)[i][j] == 0;
      assert g[j][i] == 0;
    }
  }

  lemma FlipTileValues(g: Grid)
    requires GridTileValues(g)
    ensures GridTileValues(Flip(g))
  {
    forall i, j | 0 <= i < |g| && 0 <= j < |g[i]|
      ensures Flip(g)[i][j] == 0 || IsPowerOfTwo(Flip(g)[i][j])
    {
      assert Flip(g)[i][j] == g[i][|g[i]| - 1 - j];
    }
  }

  lemma TransposeTileValues(g: Grid)
    requires IsSquare(g) && GridTileValues(g)
    ensures GridTileValues(Transpose(g))
  {
    forall i, j | 0 <= i < |g| && 0 <= j < |g|
      ensures Transpose(g)[i][j] == 0 || IsPowerOfTwo(Transpose(g)[i][j])
    {
      assert Transpose(g)[i][j] == g[j][i];
    }
  }

  // ---------------------------------------------------------------------
  // Merge on the whole board
  // ---------------------------------------------------------------------

  /** Merge is Compress, then the merge pass, then Compress, on every row. */
  lemma MergeLeftSteps(g: Grid)
    ensures MergeLeft(g) == CompressGrid(MergePassGrid(CompressGrid(g)))
  {
  }

  lemma {:induction false} MergeLeftScoreUpTo(g: Grid, a: nat)
    requires a <= |g|
    ensures SeqSum(Flat(MergeLeft(g)[..a])) == SeqSum(Flat(g[..a]))
  {
    if a > 0 {
      MergeLeftScoreUpTo(g, a - 1);
      ScoreSnoc(MergeLeft(g), a);
      ScoreSnoc(g, a);
      MergeRowSum(g[a - 1]);
    }
  }

  /** Merge keeps the score: a + a becomes 2a + 0. */
  lemma MergeLeftScore(g: Grid)
    ensures Score(MergeLeft(g)) == Score(g)
  {
    MergeLeftScoreUpTo(g, |g|);
    assert MergeLeft(g)[..|g|] == MergeLeft(g);
    assert g[..|g|] == g;
  }

  lemma MergeLeftTileValues(g: Grid)
    requires GridTileValues(g)
    ensures GridTileValues(MergeLeft(g))
  {
    forall i | 0 <= i < |g|
      ensures TileValues(MergeLeft(g)[i])
    {
      MergeRowTileValues(g[i]);
    }
  }

  /** A Merge that changes the board leaves an empty cell on it. */
  lemma MergeLeftMakesRoom(g: Grid)
    requires MergeLeft(g) != g
    ensures HasEmpty(MergeLeft(g))
  {
    var m := MergeLeft(g);
    var i :| 0 <= i < |g| && m[i] != g[i];
    MergeRowMakesRoom(g[i]);
    var k :| 0 <= k < |g[i]| && MergeRow(g[i])[k] == 0;
    assert m[i][k] == 0;
  }
}
