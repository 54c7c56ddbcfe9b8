/**
  * The global `tiles` matrix of main.c and the engine functions that read it
  * or update it in place. Only each tile's value (`num`) is modelled; the
  * drawing and animation fields are not.
  */
module Game {
  import opened RowReduce
  import opened Grids
  import opened Moves

  /** FIELD_SIZE. */
  const FieldSize: nat := 4

  class Board {
    /** The tile values `tiles[i][j].num`; 0 is an empty cell. */
    const tiles: array2<int>

    ghost predicate Valid()
      reads this
    {
      tiles.Length0 == FieldSize && tiles.Length1 == FieldSize
    }

    /** The board as a value, row by row. */
    ghost function Cells(): (g: Grid)
      reads this, tiles
      requires Valid()
      ensures |g| == FieldSize && IsSquare(g)
      ensures forall i, j :: 0 <= i < FieldSize && 0 <= j < FieldSize ==> g[i][j] == tiles[i, j]
    {
      seq(FieldSize, i requires 0 <= i < FieldSize reads tiles =>
        seq(FieldSize, j requires 0 <= j < FieldSize reads tiles => tiles[i, j]))
    }

    /** Two boards of the right shape that agree on every cell are equal. */
    static lemma SameCells(g: Grid, h: Grid)
      requires |g| == |h| == FieldSize && IsSquare(g) && IsSquare(h)
      requires forall i, j :: 0 <= i < FieldSize && 0 <= j < FieldSize ==> g[i][j] == h[i][j]
      ensures g == h
    {
      forall i | 0 <= i < FieldSize
        ensures g[i] == h[i]
      {
      }
    }

    /** InitTiles: every cell empty. */
    constructor ()
      ensures Valid() && fresh(tiles)
      ensures forall i, j :: 0 <= i < FieldSize && 0 <= j < FieldSize ==> Cells()[i][j] == 0
    {
      var t := new int[FieldSize, FieldSize];
      var i := 0;
      while i < FieldSize
        invariant 0 <= i <= FieldSize
        invariant forall r, c :: 0 <= r < i && 0 <= c < FieldSize ==> t[r, c] == 0
      {
        var j := 0;
        while j < FieldSize
          invariant 0 <= j <= FieldSize
          invariant forall r, c :: 0 <= r < i && 0 <= c < FieldSize ==> t[r, c] == 0
          invariant forall c :: 0 <= c < j ==> t[i, c] == 0
        {
          t[i, j] := 0;
          j := j + 1;
        }
        i := i + 1;
      }
      tiles := t;
    }

    /** EmptyTiles: whether some cell is empty. */
    method EmptyTiles() returns (found: bool)
      requires Valid()
      ensures found == HasEmpty(Cells())
    {
      var i := 0;
      while i < FieldSize
        invariant 0 <= i <= FieldSize
        invariant forall r, c :: 0 <= r < i && 0 <= c < FieldSize ==> tiles[r, c] != 0
      {
        var j := 0;
        while j < FieldSize
          invariant 0 <= j <= FieldSize
          invariant forall c :: 0 <= c < j ==> tiles[i, c] != 0
        {
          if tiles[i, j] == 0 {
            assert Cells()[i][j] == 0;
            return true;
          }
          j := j + 1;
        }
        i := i + 1;
      }
      return false;
    }

    /** The score that Render adds up, cell by cell in row-major order. */
    method TotalScore() returns (score: int)
      requires Valid()
      ensures score == Score(Cells())
    {
      ghost var g := Cells();
      score := 0;
      var i := 0;
      while i < FieldSize
        invariant 0 <= i <= FieldSize
        invariant score == SeqSum(Flat(g[..i]))
      {
        var j := 0;
        while j < FieldSize
          invariant 0 <= j <= FieldSize
          invariant score == SeqSum(Flat(g[..i])) + SeqSum(g[i][..j])
        {
          score := score + tiles[i, j];
          assert g[i][..j + 1] == g[i][..j] + [g[i][j]];
          SeqSumAppend(g[i][..j], [g[i][j]]);
          j := j + 1;
        }
        assert g[..i + 1][..i] == g[..i];
        assert g[i][..FieldSize] == g[i];
        SeqSumAppend(Flat(g[..i]), g[i]);
        i := i + 1;
      }
      assert g[..FieldSize] == g;
    }

    /** MoveIsAvailable: whether some tile can slide or merge in direction `d`. */
    method MoveIsAvailable(d: Direction) returns (available: bool)
      requires Valid()
      ensures available == CanMove(Cells(), d)
    {
      match d
      case Left => available := CanMoveLeft();
      case Right => available := CanMoveRight();
      case Down => available := CanMoveDown();
      case Up => available := CanMoveUp();
    }

    /** The "L" scan: rows top to bottom, each row right to left, comparing with the left neighbour. */
    method CanMoveLeft() returns (available: bool)
      requires Valid()
      ensures available == CanMove(Cells(), Left)
    {
      ghost var g := Cells();
      var n := FieldSize;
      for i := 0 to n
        invariant forall r, c :: 0 <= r < i && 0 < c < n ==> !Slides(g[r][c], g[r][c - 1])
      {
        var j := n - 1;
        while j > 0
          invariant 0 <= j < n
          invariant forall c :: j < c < n ==> !Slides(g[i][c], g[i][c - 1])
        {
          if tiles[i, j] != 0 && (tiles[i, j - 1] == tiles[i, j] || tiles[i, j - 1] == 0) {
            assert Slides(g[i][j], g[i][j - 1]);
            return true;
          }
          j := j - 1;
        }
      }
      return false;
    }

    /** The "R" scan: rows top to bottom, each row left to right, comparing with the right neighbour. */
    method CanMoveRight() returns (available: bool)
      requires Valid()
      ensures available == CanMove(Cells(), Right)
    {
      ghost var g := Cells();
      var n := FieldSize;
      for i := 0 to n
        invariant forall r, c :: 0 <= r < i && 0 <= c < n - 1 ==> !Slides(g[r][c], g[r][c + 1])
      {
        for j := 0 to n - 1
          invariant forall c :: 0 <= c < j ==> !Slides(g[i][c], g[i][c + 1])
        {
          if tiles[i, j] != 0 && (tiles[i, j + 1] == tiles[i, j] || tiles[i, j + 1] == 0) {
            assert Slides(g[i][j], g[i][j + 1]);
            return true;
          }
        }
      }
      return false;
    }

    /** The "D" scan: rows top to bottom but the last, comparing with the cell below. */
    method CanMoveDown() returns (available: bool)
      requires Valid()
      ensures available == CanMove(Cells(), Down)
    {
      ghost var g := Cells();
      var n := FieldSize;
      for i := 0 to n - 1
        invariant forall r, c :: 0 <= r < i && 0 <= c < n ==> !SlidesDownAt(g, r, c)
      {
        for j := 0 to n
          invariant forall c :: 0 <= c < j ==> !SlidesDownAt(g, i, c)
        {
          if tiles[i, j] != 0 && (tiles[i + 1, j] == tiles[i, j] || tiles[i + 1, j] == 0) {
            assert SlidesDownAt(g, i, j);
            return true;
          }
        }
      }
      return false;
    }

    /** The "U" scan: rows bottom to top but the first, comparing with the cell above. */
    method CanMoveUp() returns (available: bool)
      requires Valid()
      ensures available == CanMove(Cells(), Up)
    {
      ghost var g := Cells();
      var n := FieldSize;
      var i := n - 1;
      while i > 0
        invariant 0 <= i < n
        invariant forall r, c :: i < r < n && 0 <= c < n ==> !SlidesUpAt(g, r, c)
      {
        for j := 0 to n
          invariant forall c :: 0 <= c < j ==> !SlidesUpAt(g, i, c)
        {
          if tiles[i, j] != 0 && (tiles[i - 1, j] == tiles[i, j] || tiles[i - 1, j] == 0) {
            assert SlidesUpAt(g, i, j);
            return true;
          }
        }
        i := i - 1;
      }
      return false;
    }

    /** Flip: mirror every row, swapping [i][j] and [i][n-1-j] for j < n/2. */
    method Flip()
      requires Valid()
      modifies tiles
      ensures Valid()
      ensures Cells() == Grids.Flip(old(Cells()))
    {
      ghost var g := Cells();
      var n := FieldSize;
      for i := 0 to n
        invariant forall r, c :: 0 <= r < i && 0 <= c < n ==> tiles[r, c] == g[r][n - 1 - c]
        invariant forall r, c :: i <= r < n && 0 <= c < n ==> tiles[r, c] == g[r][c]
      {
        for j := 0 to n / 2
          invariant forall r, c :: 0 <= r < i && 0 <= c < n ==> tiles[r, c] == g[r][n - 1 - c]
          invariant forall r, c :: i < r < n && 0 <= c < n ==> tiles[r, c] == g[r][c]
          invariant forall c :: 0 <= c < j ==> tiles[i, c] == g[i][n - 1 - c] && tiles[i, n - 1 - c] == g[i][c]
          invariant forall c :: j <= c < n - j ==> tiles[i, c] == g[i][c]
        {
          var tmp := tiles[i, j];
          tiles[i, j] := tiles[i, n - j - 1];
          tiles[i, n - j - 1] := tmp;
        }
      }
      SameCells(Cells(), Grids.Flip(g));
    }

    /** Transpose: swap [i][j] and [j][i] for every j < i. */
    method Transpose()
      requires Valid()
      modifies tiles
      ensures Valid()
      ensures Cells() == Grids.Transpose(old(Cells()))
    {
      ghost var g := Cells();
      var n := FieldSize;
      for i := 1 to n
        invariant forall r, c :: 0 <= r < n && 0 <= c < n ==>
          tiles[r, c] == if r < i && c < i then g[c][r] else g[r][c]
      {
        for j := 0 to i
          invariant forall r, c :: 0 <= r < n && 0 <= c < n ==>
            tiles[r, c] == if (r < i && c < i) || (r == i && c < j) || (c == i && r < j) then g[c][r] else g[r][c]
        {
          var tmp := tiles[i, j];
          tiles[i, j] := tiles[j, i];
          tiles[j, i] := tmp;
        }
      }
      SameCells(Cells(), Grids.Transpose(g));
    }

    /**
      * The body of Compress for row `i`: copy each non-zero value to the write
      * cursor `zeros`, then clear the cells from the cursor to the end.
      */
    method CompressRowAt(i: nat, ghost row: Row)
      requires Valid() && i < FieldSize && |row| == FieldSize
      requires forall c :: 0 <= c < FieldSize ==> tiles[i, c] == row[c]
      modifies tiles
      ensures Valid()
      ensures forall c :: 0 <= c < FieldSize ==> tiles[i, c] == CompressRow(row)[c]
      ensures forall r, c :: 0 <= r < FieldSize && r != i && 0 <= c < FieldSize ==> tiles[r, c] == old(tiles[r, c])
    {
      var n := FieldSize;
      var zeros := 0;
      for j := 0 to n
        invariant zeros == |NonZeros(row[..j])| && zeros <= j
        invariant forall c :: 0 <= c < zeros ==> tiles[i, c] == NonZeros(row[..j])[c]
        invariant forall c :: j <= c < n ==> tiles[i, c] == row[c]
        invariant forall r, c :: 0 <= r < n && r != i && 0 <= c < n ==> tiles[r, c] == old(tiles[r, c])
      {
        assert row[..j + 1] == row[..j] + [row[j]];
        NonZerosAppend(row[..j], [row[j]]);
        if tiles[i, j] != 0 {
          assert NonZeros([row[j]]) == [row[j]];
          tiles[i, zeros] := tiles[i, j];
          zeros := zeros + 1;
        } else {
          assert NonZeros([row[j]]) == [];
        }
      }
      assert row[..n] == row;
      while zeros < n
        invariant |NonZeros(row)| <= zeros <= n
        invariant forall c :: 0 <= c < zeros ==> tiles[i, c] == CompressRow(row)[c]
        invariant forall r, c :: 0 <= r < n && r != i && 0 <= c < n ==> tiles[r, c] == old(tiles[r, c])
      {
        tiles[i, zeros] := 0;
        zeros := zeros + 1;
      }
    }

    /** Compress: every row's non-zero values packed to the left, in order. */
    method Compress()
      requires Valid()
      modifies tiles
      ensures Valid()
      ensures Cells() == CompressGrid(old(Cells()))
    {
      ghost var g := Cells();
      var n := FieldSize;
      for i := 0 to n
        invariant forall r, c :: 0 <= r < i && 0 <= c < n ==> tiles[r, c] == CompressRow(g[r])[c]
        invariant forall r, c :: i <= r < n && 0 <= c < n ==> tiles[r, c] == g[r][c]
      {
        CompressRowAt(i, g[i]);
      }
      SameCells(Cells(), CompressGrid(g));
    }

    /**
      * The merge loop of Merge for row `i`: double each cell equal to its right
      * neighbour and clear the neighbour. The source's test `a == b != 0` is
      * `(a == b) != 0`, plain equality.
      */
    method MergePassAt(i: nat, ghost row: Row)
      requires Valid() && i < FieldSize && |row| == FieldSize
      requires forall c :: 0 <= c < FieldSize ==> tiles[i, c] == row[c]
      modifies tiles
      ensures Valid()
      ensures forall c :: 0 <= c < FieldSize ==> tiles[i, c] == MergePass(row)[c]
      ensures forall r, c :: 0 <= r < FieldSize && r != i && 0 <= c < FieldSize ==> tiles[r, c] == old(tiles[r, c])
    {
      var n := FieldSize;
      ghost var cur := row;
      for j := 0 to n - 1
        invariant |cur| == n
        invariant forall c :: 0 <= c < n ==> tiles[i, c] == cur[c]
        invariant cur[..j] + MergePass(cur[j..]) == MergePass(row)
        invariant forall r, c :: 0 <= r < n && r != i && 0 <= c < n ==> tiles[r, c] == old(tiles[r, c])
      {
        if tiles[i, j] == tiles[i, j + 1] {
          MergePassStepEqual(cur, j);
          tiles[i, j] := tiles[i, j] * 2;
          tiles[i, j + 1] := 0;
          cur := cur[j := 2 * cur[j]][j + 1 := 0];
        } else {
          MergePassStepUnequal(cur, j);
        }
      }
      assert cur[..n - 1] + cur[n - 1..] == cur;
    }

    /** Merge: Compress, the merge loop over every row, Compress again. */
    method Merge()
      requires Valid()
      modifies tiles
      ensures Valid()
      ensures Cells() == MergeLeft(old(Cells()))
    {
      ghost var g := Cells();
      var n := FieldSize;
      Compress();
      ghost var h := Cells();
      for i := 0 to n
        invariant forall r, c :: 0 <= r < i && 0 <= c < n ==> tiles[r, c] == MergePass(h[r])[c]
        invariant forall r, c :: i <= r < n && 0 <= c < n ==> tiles[r, c] == h[r][c]
      {
        MergePassAt(i, h[i]);
      }
      SameCells(Cells(), MergePassGrid(h));
      Compress();
      MergeLeftSteps(g);
    }

    /**
      * AddTwoOrFour with its random choices supplied: on a full board nothing
      * happens; otherwise the empty cell [row][col] gets 4 when `draw` (the
      * value of GetRandomValue(1, 100)) is at least 90 and 2 otherwise.
      */
    method AddTwoOrFour(row: int, col: int, draw: int)
      requires Valid()
      requires SpawnAllowed(Cells(), row, col)
      modifies tiles
      ensures Valid()
      ensures Cells() == Spawn(old(Cells()), row, col, draw)
    {
      ghost var g := Cells();
      var empty := EmptyTiles();
      if !empty {
        return;
      }
      tiles[row, col] := if draw >= 90 then 4 else 2;
      SameCells(Cells(), Spawn(g, row, col, draw));
    }

    /** The sequence of Flip, Transpose and Merge that Input runs for one arrow key. */
    method Slide(d: Direction)
      requires Valid()
      modifies tiles
      ensures Valid()
      ensures Cells() == Move(old(Cells()), d)
    {
      ghost var g := Cells();
      match d {
        case Left =>
          Merge();
        case Right =>
          Flip();
          Merge();
          Flip();
          assert Cells() == Grids.Flip(MergeLeft(Grids.Flip(g)));
        case Down =>
          Transpose();
          Flip();
          Merge();
          Flip();
          Transpose();
          assert Cells() == Grids.Transpose(Grids.Flip(MergeLeft(Grids.Flip(Grids.Transpose(g)))));
        case Up =>
          Transpose();
          Merge();
          Transpose();
          assert Cells() == Grids.Transpose(MergeLeft(Grids.Transpose(g)));
      }
    }

    /**
      * Input for one pressed arrow key: when MoveIsAvailable allows it, the
      * move's sequence of Flip, Transpose and Merge, then AddTwoOrFour.
      */
    method Input(d: Direction, row: int, col: int, draw: int) returns (moved: bool)
      requires Valid()
      requires CanMove(Cells(), d) ==> SpawnAllowed(Move(Cells(), d), row, col)
      modifies tiles
      ensures Valid()
      ensures moved == CanMove(old(Cells()), d)
      ensures Cells() == Turn(old(Cells()), d, row, col, draw)
    {
      moved := MoveIsAvailable(d);
      if !moved {
        return;
      }
      Slide(d);
      AddTwoOrFour(row, col, draw);
    }
  }
}
