/**
  * The four moves of Input (main.c) as the left Merge conjugated by Flip and
  * Transpose, the legality test MoveIsAvailable, the spawn of AddTwoOrFour,
  * and a whole turn: a legal move followed by a spawn.
  */
module Moves {
  import opened RowReduce
  import opened Grids

  /** The source passes "L", "R", "U" or "D"; here a closed enumeration. */
  datatype Direction = Left | Right | Up | Down

  /** The board after a move, composed exactly as Input composes it. */
  function Move(g: Grid, d: Direction): (h: Grid)
    requires IsSquare(g)
    ensures |h| == |g| && IsSquare(h)
  {
    match d
    case Left => MergeLeft(g)
    case Right => Flip(MergeLeft(Flip(g)))
    case Up => Transpose(MergeLeft(Transpose(g)))
    case Down => Transpose(Flip(MergeLeft(Flip(Transpose(g)))))
  }

  /** Cell [i][j] can slide down into cell [i + 1][j]. */
  predicate SlidesDownAt(g: Grid, i: int, j: int)
    requires IsSquare(g) && 0 <= i < |g| - 1 && 0 <= j < |g|
  {
    Slides(g[i][j], g[i + 1][j])
  }

  /** Cell [i][j] can slide up into cell [i - 1][j]. */
  predicate SlidesUpAt(g: Grid, i: int, j: int)
    requires IsSquare(g) && 0 < i < |g| && 0 <= j < |g|
  {
    Slides(g[i][j], g[i - 1][j])
  }

  /** MoveIsAvailable: each direction scans its own neighbour, as the source does. */
  predicate CanMove(g: Grid, d: Direction)
    requires IsSquare(g)
  {
    match d
    case Left => exists i, j :: 0 <= i < |g| && 0 < j < |g| && Slides(g[i][j], g[i][j - 1])
    case Right => exists i, j :: 0 <= i < |g| && 0 <= j < |g| - 1 && Slides(g[i][j], g[i][j + 1])
    case Down => exists i, j :: 0 <= i < |g| - 1 && 0 <= j < |g| && SlidesDownAt(g, i, j)
    case Up => exists i, j :: 0 < i < |g| && 0 <= j < |g| && SlidesUpAt(g, i, j)
  }

  // ---------------------------------------------------------------------
  // Reframing: every move is the left move on a reframed board
  // ---------------------------------------------------------------------

  /** The reframing Input applies before Merge. */
  function Frame(g: Grid, d: Direction): (f: Grid)
    requires IsSquare(g)
    ensures |f| == |g| && IsSquare(f)
  {
    match d
    case Left => g
    case Right => Flip(g)
    case Up => Transpose(g)
    case Down => Flip(Transpose(g))
  }

  /** The reframing Input applies after Merge. */
  function Unframe(g: Grid, d: Direction): (u: Grid)
    requires IsSquare(g)
    ensures |u| == |g| && IsSquare(u)
  {
    match d
    case Left => g
    case Right => Flip(g)
    case Up => Transpose(g)
    case Down => Transpose(Flip(g))
  }

  lemma FrameRoundTrip(g: Grid, d: Direction)
    requires IsSquare(g)
    ensures Unframe(Frame(g, d), d) == g
    ensures Frame(Unframe(g, d), d) == g
  {
    match d
    case Left =>
    case Right => FlipInvolution(g);
    case Up => TransposeInvolution(g);
    case Down =>
      FlipInvolution(Transpose(g));
      TransposeInvolution(g);
      TransposeInvolution(Flip(g));
      FlipInvolution(g);
  }

  lemma MoveIsFramedMerge(g: Grid, d: Direction)
    requires IsSquare(g)
    ensures Move(g, d) == Unframe(MergeLeft(Frame(g, d)), d)
  {
  }

  /** MoveIsAvailable("R") on a board is the left test on the flipped board. */
  lemma RightCheckIsFlippedLeft(g: Grid)
    requires IsSquare(g)
    ensures CanMove(g, Right) <==> CanMove(Flip(g), Left)
  {
    var n := |g|;
    var f := Flip(g);
    if CanMove(g, Right) {
      var i, j :| 0 <= i < n && 0 <= j < n - 1 && Slides(g[i][j], g[i][j + 1]);
      assert f[i][n - 1 - j] == g[i][j] && f[i][n - 1 - j - 1] == g[i][j + 1];
    }
    if CanMove(f, Left) {
      var i, j :| 0 <= i < n && 0 < j < n && Slides(f[i][j], f[i][j - 1]);
      assert g[i][n - 1 - j] == f[i][j] && g[i][n - 1 - j + 1] == f[i][j - 1];
    }
  }

  /** MoveIsAvailable("U") on a board is the left test on the transposed board. */
  lemma UpCheckIsTransposedLeft(g: Grid)
    requires IsSquare(g)
    ensures CanMove(g, Up) <==> CanMove(Transpose(g), Left)
  {
    var n := |g|;
    var t := Transpose(g);
    if CanMove(g, Up) {
      var i, j :| 0 < i < n && 0 <= j < n && SlidesUpAt(g, i, j);
      assert t[j][i] == g[i][j] && t[j][i - 1] == g[i - 1][j];
    }
    if CanMove(t, Left) {
      var i, j :| 0 <= i < n && 0 < j < n && Slides(t[i][j], t[i][j - 1]);
      assert g[j][i] == t[i][j] && g[j - 1][i] == t[i][j - 1];
      assert SlidesUpAt(g, j, i);
    }
  }

  /** Cell [x][y] of the board transposed, then flipped, is cell [n-1-y][x] of the board. */
  lemma FlipTransposeCell(g: Grid, x: int, y: int)
    requires IsSquare(g) && 0 <= x < |g| && 0 <= y < |g|
    ensures Flip(Transpose(g))[x][y] == g[|g| - 1 - y][x]
  {
    var t := Transpose(g);
    assert Flip(t)[x] == Reverse(t[x]);
  }

  /** MoveIsAvailable("D") on a board is the left test on the board transposed, then flipped. */
  lemma DownCheckIsReframedLeft(g: Grid)
    requires IsSquare(g)
    ensures CanMove(g, Down) <==> CanMove(Flip(Transpose(g)), Left)
  {
    var n := |g|;
    var h := Flip(Transpose(g));
    if CanMove(g, Down) {
      var i, j :| 0 <= i < n - 1 && 0 <= j < n && SlidesDownAt(g, i, j);
      FlipTransposeCell(g, j, n - 1 - i);
      FlipTransposeCell(g, j, n - 2 - i);
      assert Slides(h[j][n - 1 - i], h[j][n - 2 - i]);
    }
    if CanMove(h, Left) {
      var i, j :| 0 <= i < n && 0 < j < n && Slides(h[i][j], h[i][j - 1]);
      FlipTransposeCell(g, i, j);
      FlipTransposeCell(g, i, j - 1);
      assert SlidesDownAt(g, n - 1 - j, i);
    }
  }

  /** Each direction's check is the left check on the board reframed as Input reframes it. */
  lemma CheckIsFramedLeft(g: Grid, d: Direction)
    requires IsSquare(g)
    ensures CanMove(g, d) <==> CanMove(Frame(g, d), Left)
  {
    match d
    case Left =>
    case Right => RightCheckIsFlippedLeft(g);
    case Up => UpCheckIsTransposedLeft(g);
    case Down => DownCheckIsReframedLeft(g);
  }

  // ---------------------------------------------------------------------
  // Legality and change
  // ---------------------------------------------------------------------

  /** Merge leaves the board unchanged exactly when MoveIsAvailable("L") is false. */
  lemma LeftUnchangedIff(g: Grid)
    requires IsSquare(g)
    ensures MergeLeft(g) == g <==> !CanMove(g, Left)
  {
    var n := |g|;
    if MergeLeft(g) == g {
      forall i, j | 0 <= i < n && 0 < j < n
        ensures !Slides(g[i][j], g[i][j - 1])
      {
        MergeRowUnchangedIff(g[i]);
        assert MergeRow(g[i]) == MergeLeft(g)[i];
      }
    } else {
      var i :| 0 <= i < n && MergeLeft(g)[i] != g[i];
      MergeRowUnchangedIff(g[i]);
      var j :| 0 < j < n && g[i][j] != 0 && (g[i][j - 1] == g[i][j] || g[i][j - 1] == 0);
      assert Slides(g[i][j], g[i][j - 1]);
    }
  }

  /** Any move leaves the board unchanged exactly when MoveIsAvailable reports false for it. */
  lemma MoveUnchangedIff(g: Grid, d: Direction)
    requires IsSquare(g)
    ensures Move(g, d) == g <==> !CanMove(g, d)
  {
    var f := Frame(g, d);
    var m := MergeLeft(f);
    assert Move(g, d) == Unframe(m, d) by {
      MoveIsFramedMerge(g, d);
    }
    assert Unframe(m, d) == g <==> m == f by {
      FrameRoundTrip(g, d);
      FrameRoundTrip(m, d);
    }
    assert m == f <==> !CanMove(g, d) by {
      LeftUnchangedIff(f);
      CheckIsFramedLeft(g, d);
    }
  }

  lemma UnframeScore(g: Grid, d: Direction)
    requires IsSquare(g)
    ensures Score(Unframe(g, d)) == Score(g)
  {
    match d
    case Left =>
    case Right => FlipScore(g);
    case Up => TransposeScore(g);
    case Down =>
      FlipScore(g);
      TransposeScore(Flip(g));
  }

  lemma FrameScore(g: Grid, d: Direction)
    requires IsSquare(g)
    ensures Score(Frame(g, d)) == Score(g)
  {
    match d
    case Left =>
    case Right => FlipScore(g);
    case Up => TransposeScore(g);
    case Down =>
      TransposeScore(g);
      FlipScore(Transpose(g));
  }

  /** No move changes the score: merging a + a gives 2a + 0. */
  lemma MoveScore(g: Grid, d: Direction)
    requires IsSquare(g)
    ensures Score(Move(g, d)) == Score(g)
  {
    var f := Frame(g, d);
    MoveIsFramedMerge(g, d);
    FrameScore(g, d);
    MergeLeftScore(f);
    UnframeScore(MergeLeft(f), d);
  }

  /** If every tile is a power of two before a move, so is every tile after it. */
  lemma MoveTileValues(g: Grid, d: Direction)
    requires IsSquare(g) && GridTileValues(g)
    ensures GridTileValues(Move(g, d))
  {
    match d
    case Left =>
      MergeLeftTileValues(g);
    case Right =>
      FlipTileValues(g);
      MergeLeftTileValues(Flip(g));
      FlipTileValues(MergeLeft(Flip(g)));
    case Up =>
      TransposeTileValues(g);
      MergeLeftTileValues(Transpose(g));
      TransposeTileValues(MergeLeft(Transpose(g)));
    case Down =>
      var t := Transpose(g);
      TransposeTileValues(g);
      FlipTileValues(t);
      MergeLeftTileValues(Flip(t));
      FlipTileValues(MergeLeft(Flip(t)));
      TransposeTileValues(Flip(MergeLeft(Flip(t))));
  }

  lemma UnframeHasEmpty(g: Grid, d: Direction)
    requires IsSquare(g)
    ensures HasEmpty(Unframe(g, d)) <==> HasEmpty(g)
  {
    match d
    case Left =>
    case Right => FlipHasEmpty(g);
    case Up => TransposeHasEmpty(g);
    case Down =>
      FlipHasEmpty(g);
      TransposeHasEmpty(Flip(g));
  }

  /** A move that changes the board always leaves an empty cell for the spawn. */
  lemma MoveMakesRoom(g: Grid, d: Direction)
    requires IsSquare(g) && Move(g, d) != g
    ensures HasEmpty(Move(g, d))
  {
    var f := Frame(g, d);
    var m := MergeLeft(f);
    assert Move(g, d) == Unframe(m, d) by {
      MoveIsFramedMerge(g, d);
    }
    assert m != f by {
      FrameRoundTrip(g, d);
    }
    MergeLeftMakesRoom(f);
    UnframeHasEmpty(m, d);
  }

  // ---------------------------------------------------------------------
  // Spawning
  // ---------------------------------------------------------------------

  /** The value AddTwoOrFour places for a draw of GetRandomValue(1, 100). */
  function SpawnValue(draw: int): (v: int)
  {
    if draw >= 90 then 4 else 2
  }

  /** The supplied cell stands for the retry loop's final pick: an empty cell, if there is one. */
  predicate SpawnAllowed(g: Grid, i: int, j: int)
  {
    HasEmpty(g) ==> 0 <= i < |g| && 0 <= j < |g[i]| && g[i][j] == 0
  }

  /**
    * AddTwoOrFour changes nothing on a full board; otherwise exactly the
    * picked, previously empty cell changes, to 4 when the draw is at least 90
    * and to 2 otherwise.
    */
  function Spawn(g: Grid, i: int, j: int, draw: int): (h: Grid)
    requires SpawnAllowed(g, i, j)
    ensures |h| == |g| && (forall r :: 0 <= r < |g| ==> |h[r]| == |g[r]|)
    ensures !HasEmpty(g) ==> h == g
    ensures HasEmpty(g) ==>
      g[i][j] == 0 && (h[i][j] == 4 <==> draw >= 90) && (h[i][j] == 2 <==> draw < 90)
      && (forall r, c :: 0 <= r < |g| && 0 <= c < |g[r]| && (r != i || c != j) ==> h[r][c] == g[r][c])
  {
    if !HasEmpty(g) then g else g[i := g[i][j := SpawnValue(draw)]]
  }

  lemma {:induction false} SeqSumUpdate(r: Row, j: nat, v: int)
    requires j < |r|
    ensures SeqSum(r[j := v]) == SeqSum(r) - r[j] + v
    decreases |r|
  {
    if j > 0 {
      assert r[j := v][1..] == r[1..][j - 1 := v];
      SeqSumUpdate(r[1..], j - 1, v);
    }
  }

  /** The spawned tile is the only new value, so the score grows by exactly its value. */
  lemma SpawnScore(g: Grid, i: int, j: int, draw: int)
    requires SpawnAllowed(g, i, j)
    ensures Score(Spawn(g, i, j, draw)) == Score(g) + (if HasEmpty(g) then SpawnValue(draw) else 0)
  {
    if HasEmpty(g) {
      var row := g[i][j := SpawnValue(draw)];
      var pre, post := g[..i], g[i + 1..];
      assert g == pre + [g[i]] + post;
      assert g[i := row] == pre + [row] + post;
      ScoreAround(pre, g[i], post);
      ScoreAround(pre, row, post);
      SeqSumUpdate(g[i], j, SpawnValue(draw));
    }
  }

  // ---------------------------------------------------------------------
  // A turn
  // ---------------------------------------------------------------------

  /** One key press handled by Input: a legal move, then AddTwoOrFour; an illegal one does nothing. */
  function Turn(g: Grid, d: Direction, i: int, j: int, draw: int): (h: Grid)
    requires IsSquare(g)
    requires CanMove(g, d) ==> SpawnAllowed(Move(g, d), i, j)
  {
    if CanMove(g, d) then Spawn(Move(g, d), i, j, draw) else g
  }

  /**
    * A legal turn always spawns exactly one tile, so the score grows by the
    * spawned value; an illegal one changes nothing.
    */
  lemma TurnScore(g: Grid, d: Direction, i: int, j: int, draw: int)
    requires IsSquare(g)
    requires CanMove(g, d) ==> SpawnAllowed(Move(g, d), i, j)
    ensures Score(Turn(g, d, i, j, draw)) == Score(g) + (if CanMove(g, d) then SpawnValue(draw) else 0)
  {
    if CanMove(g, d) {
      var m := Move(g, d);
      MoveUnchangedIff(g, d);
      MoveMakesRoom(g, d);
      MoveScore(g, d);
      SpawnScore(m, i, j, draw);
    }
  }

  /** A turn changes the board exactly when the move is legal. */
  lemma TurnChangesIff(g: Grid, d: Direction, i: int, j: int, draw: int)
    requires IsSquare(g)
    requires CanMove(g, d) ==> SpawnAllowed(Move(g, d), i, j)
    ensures Turn(g, d, i, j, draw) != g <==> CanMove(g, d)
  {
    TurnScore(g, d, i, j, draw);
  }

  /** Every reachable board holds only powers of two: moves keep them, spawns add 2 or 4. */
  lemma TurnTileValues(g: Grid, d: Direction, i: int, j: int, draw: int)
    requires IsSquare(g) && GridTileValues(g)
    requires CanMove(g, d) ==> SpawnAllowed(Move(g, d), i, j)
    ensures GridTileValues(Turn(g, d, i, j, draw))
  {
    if CanMove(g, d) {
      var m := Move(g, d);
      MoveTileValues(g, d);
      var h := Spawn(m, i, j, draw);
      if HasEmpty(m) {
        assert IsPowerOfTwo(2) && IsPowerOfTwo(4);
        forall r | 0 <= r < |h|
          ensures TileValues(h[r])
        {
          if r == i {
            forall c | 0 <= c < |h[r]|
              ensures h[r][c] == 0 || IsPowerOfTwo(h[r][c])
            {
              if c != j {
                assert h[r][c] == m[r][c];
              }
            }
          } else {
            assert h[r] == m[r];
          }
        }
      }
    }
  }
}
