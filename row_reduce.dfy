/**
  * Row reduction: the one-row primitive behind every move of the board.
  *
  * `Compress` (main.c) packs the non-zero values of a row to the left,
  * `Merge` compresses, runs one left-to-right pass that doubles the left cell
  * of every equal adjacent pair and zeroes its right partner, and compresses
  * again. This module states those steps on one row, a sequence of tile
  * values in which 0 is an empty cell, and proves what they promise.
  */
module RowReduce {

  type Row = seq<int>

  // ---------------------------------------------------------------------
  // Building blocks
  // ---------------------------------------------------------------------

  /** The non-zero values of a row, in their original order. */
  function NonZeros(r: Row): (s: Row)
    ensures |s| <= |r|
    ensures forall k :: 0 <= k < |s| ==> s[k] != 0
    ensures forall x :: x in s ==> x in r
    decreases |r|
  {
    if r == [] then []
    else if r[0] != 0 then [r[0]] + NonZeros(r[1..])
    else NonZeros(r[1..])
  }

  /** A row of `n` empty cells. */
  function Zeros(n: nat): (z: Row)
    ensures |z| == n
  {
    seq(n, _ => 0)
  }

  /** The number of occupied cells of a row. */
  function Count(r: Row): (c: nat)
  {
    |NonZeros(r)|
  }

  /** Sum of the values of a row. */
  function SeqSum(r: Row): (s: int)
    decreases |r|
  {
    if r == [] then 0 else r[0] + SeqSum(r[1..])
  }

  /** No empty cell lies to the left of an occupied one. */
  predicate Packed(r: Row)
  {
    forall j :: 0 < j < |r| && r[j] != 0 ==> r[j - 1] != 0
  }

  /** Every occupied cell holds a power of two. */
  predicate IsPowerOfTwo(x: int)
    decreases if x < 0 then 0 else x
  {
    x == 1 || (x > 1 && x % 2 == 0 && IsPowerOfTwo(x / 2))
  }

  predicate TileValues(r: Row)
  {
    forall k :: 0 <= k < |r| ==> r[k] == 0 || IsPowerOfTwo(r[k])
  }

  /** A tile that is not empty can enter a neighbour cell that is empty or equal to it. */
  predicate Slides(tile: int, neighbour: int)
  {
    tile != 0 && (neighbour == tile || neighbour == 0)
  }

  /**
    * The left test of MoveIsAvailable on one row: some occupied cell other
    * than the first has an empty or an equal left neighbour.
    */
  predicate CanSlideLeft(r: Row)
  {
    exists j :: 0 < j < |r| && Slides(r[j], r[j - 1])
  }

  // ---------------------------------------------------------------------
  // The operations
  // ---------------------------------------------------------------------

  /** One row of Compress: the non-zero values first, in order, then zeros. */
  function CompressRow(r: Row): (c: Row)
    ensures |c| == |r|
  {
    NonZeros(r) + Zeros(|r| - |NonZeros(r)|)
  }

  /**
    * The pass of Merge over one row, left to right: a cell equal to its right
    * neighbour is doubled and the neighbour set to 0; the scan then moves on
    * to the (now empty) neighbour. The test is plain equality, as the source's
    * `a == b != 0` parses as `(a == b) != 0`, so two empty cells "merge" too.
    */
  function MergePass(r: Row): (m: Row)
    ensures |m| == |r|
    decreases |r|
  {
    if |r| < 2 then r
    else if r[0] == r[1] then [2 * r[0]] + MergePass([0] + r[2..])
    else [r[0]] + MergePass(r[1..])
  }

  /** The same pass with the test written as "both non-zero and equal". */
  function MergePassStrict(r: Row): (m: Row)
    ensures |m| == |r|
    decreases |r|
  {
    if |r| < 2 then r
    else if r[0] != 0 && r[0] == r[1] then [2 * r[0]] + MergePassStrict([0] + r[2..])
    else [r[0]] + MergePassStrict(r[1..])
  }

  /** One row of Merge: compress, merge pass, compress. */
  function MergeRow(r: Row): (m: Row)
    ensures |m| == |r|
  {
    CompressRow(MergePass(CompressRow(r)))
  }

  /**
    * Reference semantics of a move on the tiles of a row, in order: the first
    * two equal tiles become one of double value and BOTH leave the scan, so a
    * tile made by a merge never merges again in the same move.
    */
  function Collapse(s: Row): (c: Row)
    ensures |c| <= |s|
    decreases |s|
  {
    if |s| < 2 then s
    else if s[0] == s[1] then [2 * s[0]] + Collapse(s[2..])
    else [s[0]] + Collapse(s[1..])
  }

  /** The number of merges Collapse performs. */
  function Merges(s: Row): (m: nat)
    decreases |s|
  {
    if |s| < 2 then 0
    else if s[0] == s[1] then 1 + Merges(s[2..])
    else Merges(s[1..])
  }

  // ---------------------------------------------------------------------
  // Helper facts about the building blocks
  // ---------------------------------------------------------------------

  lemma {:induction false} NonZerosAppend(a: Row, b: Row)
    ensures NonZeros(a + b) == NonZeros(a) + NonZeros(b)
    decreases |a|
  {
    if a == [] {
      assert a + b == b;
    } else {
      assert (a + b)[1..] == a[1..] + b;
      NonZerosAppend(a[1..], b);
    }
  }

  lemma {:induction false} NonZerosOfZeros(n: nat)
    ensures NonZeros(Zeros(n)) == []
  {
    if n > 0 {
      assert Zeros(n)[1..] == Zeros(n - 1);
      NonZerosOfZeros(n - 1);
    }
  }

  lemma {:induction false} NonZerosOfFull(s: Row)
    requires forall k :: 0 <= k < |s| ==> s[k] != 0
    ensures NonZeros(s) == s
    decreases |s|
  {
    if s != [] {
      NonZerosOfFull(s[1..]);
    }
  }

  /** A row whose every cell is occupied is its own list of tiles. */
  lemma {:induction false} FullWhenCountIsLength(r: Row)
    requires |NonZeros(r)| == |r|
    ensures NonZeros(r) == r
    decreases |r|
  {
    if r != [] {
      assert r[0] != 0;
      FullWhenCountIsLength(r[1..]);
    }
  }

  lemma {:induction false} SeqSumAppend(a: Row, b: Row)
    ensures SeqSum(a + b) == SeqSum(a) + SeqSum(b)
    decreases |a|
  {
    if a == [] {
      assert a + b == b;
    } else {
      assert (a + b)[1..] == a[1..] + b;
      SeqSumAppend(a[1..], b);
    }
  }

  lemma {:induction false} SeqSumOfZeros(n: nat)
    ensures SeqSum(Zeros(n)) == 0
  {
    if n > 0 {
      assert Zeros(n)[1..] == Zeros(n - 1);
      SeqSumOfZeros(n - 1);
    }
  }

  lemma {:induction false} SeqSumNonZeros(r: Row)
    ensures SeqSum(NonZeros(r)) == SeqSum(r)
    decreases |r|
  {
    if r != [] {
      SeqSumNonZeros(r[1..]);
      if r[0] != 0 {
        SeqSumAppend([r[0]], NonZeros(r[1..]));
      }
    }
  }

  /**
    * For rows holding the same values, the first value of `a` sits at some
    * position `k` of `b`, and the rest of `a` holds the same values as `b`
    * without that cell.
    */
  lemma RemoveMatching(a: Row, b: Row) returns (k: nat)
    requires a != [] && multiset(a) == multiset(b)
    ensures k < |b| && b[k] == a[0]
    ensures multiset(a[1..]) == multiset(b[..k] + b[k + 1..])
  {
    assert a[0] in b by {
      assert a[0] in multiset(a);
    }
    k :| 0 <= k < |b| && b[k] == a[0];
    assert b == b[..k] + [b[k]] + b[k + 1..];
    assert a == [a[0]] + a[1..];
    assert multiset(a[1..]) == multiset(a) - multiset{a[0]};
    assert multiset(b[..k] + b[k + 1..]) == multiset(b) - multiset{b[k]};
  }

  lemma SeqSumAround(p: Row, x: int, q: Row)
    ensures SeqSum(p + [x] + q) == SeqSum(p) + x + SeqSum(q)
  {
    SeqSumAppend(p + [x], q);
    SeqSumAppend(p, [x]);
    assert SeqSum([x]) == x + SeqSum([]);
  }

  /** Removing the cell at `k` removes its value from the sum. */
  lemma RemoveAtSum(b: Row, k: nat)
    requires k < |b|
    ensures SeqSum(b[..k] + b[k + 1..]) == SeqSum(b) - b[k]
  {
    var pre, post := b[..k], b[k + 1..];
    assert SeqSum(b) == SeqSum(pre + [b[k]] + post) by {
      assert b == pre + [b[k]] + post;
    }
    SeqSumAround(pre, b[k], post);
    SeqSumAppend(pre, post);
  }

  /** Sequences holding the same values in any order have the same sum. */
  lemma {:induction false} PermutationSum(a: Row, b: Row)
    requires multiset(a) == multiset(b)
    ensures SeqSum(a) == SeqSum(b)
    decreases |a|
  {
    if a == [] {
      assert |b| == |multiset(b)| == 0;
    } else {
      var k := RemoveMatching(a, b);
      PermutationSum(a[1..], b[..k] + b[k + 1..]);
      RemoveAtSum(b, k);
    }
  }

  /** Occupied cells of a packed row have only occupied cells to their left. */
  lemma {:induction false} PackedPrefixOccupied(r: Row, m: nat)
    requires Packed(r) && m < |r| && r[m] != 0
    ensures forall k :: 0 <= k <= m ==> r[k] != 0
  {
    if m > 0 {
      PackedPrefixOccupied(r, m - 1);
    }
  }

  /** A packed row is its tiles followed by empty cells. */
  lemma {:induction false} PackedForm(r: Row)
    requires Packed(r)
    ensures r == NonZeros(r) + Zeros(|r| - |NonZeros(r)|)
    decreases |r|
  {
    if r != [] {
      if r[0] == 0 {
        forall m | 0 <= m < |r|
          ensures r[m] == 0
        {
          if r[m] != 0 {
            PackedPrefixOccupied(r, m);
          }
        }
        assert r == Zeros(|r|);
        NonZerosOfZeros(|r|);
      } else {
        assert Packed(r[1..]) by {
          forall j | 0 < j < |r[1..]| && r[1..][j] != 0
            ensures r[1..][j - 1] != 0
          {
            assert r[j + 1] != 0;
          }
        }
        PackedForm(r[1..]);
      }
    }
  }

  // ---------------------------------------------------------------------
  // Compress
  // ---------------------------------------------------------------------

  /**
    * Compress keeps the row's length and its tiles in their original order,
    * and leaves no empty cell before an occupied one.
    */
  lemma CompressRowSpec(r: Row)
    ensures |CompressRow(r)| == |r|
    ensures NonZeros(CompressRow(r)) == NonZeros(r)
    ensures Count(CompressRow(r)) == Count(r)
    ensures Packed(CompressRow(r))
  {
    var n := NonZeros(r);
    NonZerosAppend(n, Zeros(|r| - |n|));
    NonZerosOfZeros(|r| - |n|);
    NonZerosOfFull(n);
  }

  /** Those three properties determine the result of Compress uniquely. */
  lemma CompressRowUnique(r: Row, x: Row)
    requires |x| == |r| && Packed(x) && NonZeros(x) == NonZeros(r)
    ensures x == CompressRow(r)
  {
    PackedForm(x);
  }

  /** Compress is idempotent. */
  lemma CompressRowIdempotent(r: Row)
    ensures CompressRow(CompressRow(r)) == CompressRow(r)
  {
    CompressRowSpec(r);
    CompressRowUnique(CompressRow(r), CompressRow(r));
  }

  lemma CompressRowSum(r: Row)
    ensures SeqSum(CompressRow(r)) == SeqSum(r)
  {
    var n := NonZeros(r);
    SeqSumAppend(n, Zeros(|r| - |n|));
    SeqSumOfZeros(|r| - |n|);
    SeqSumNonZeros(r);
  }

  lemma CompressRowTileValues(r: Row)
    requires TileValues(r)
    ensures TileValues(CompressRow(r))
  {
    var c := CompressRow(r);
    forall k | 0 <= k < |c|
      ensures c[k] == 0 || IsPowerOfTwo(c[k])
    {
      if k < |NonZeros(r)| {
        assert c[k] in NonZeros(r);
        assert c[k] in r;
      }
    }
  }

  // ---------------------------------------------------------------------
  // The merge pass
  // ---------------------------------------------------------------------

  /**
    * The equality test of the source and the explicit "non-zero and equal"
    * test give the same pass: a pair of empty cells doubles 0 into 0.
    */
  lemma {:induction false} ZeroPairsAreHarmless(r: Row)
    ensures MergePass(r) == MergePassStrict(r)
    decreases |r|
  {
    if |r| >= 2 {
      if r[0] == r[1] && r[0] == 0 {
        assert [0] + r[2..] == r[1..];
      }
      if r[0] == r[1] {
        ZeroPairsAreHarmless([0] + r[2..]);
      } else {
        ZeroPairsAreHarmless(r[1..]);
      }
    }
  }

  /**
    * One iteration of the source's loop at column `j` when the two cells are
    * equal: doubling `row[j]` and clearing `row[j + 1]` advances the pass by
    * one cell.
    */
  lemma MergePassStepEqual(row: Row, j: nat)
    requires j + 1 < |row| && row[j] == row[j + 1]
    ensures row[..j] + MergePass(row[j..])
      == row[j := 2 * row[j]][j + 1 := 0][..j + 1] + MergePass(row[j := 2 * row[j]][j + 1 := 0][j + 1..])
  {
    var s := row[j..];
    var next := row[j := 2 * row[j]][j + 1 := 0];
    assert s[0] == row[j] && s[1] == row[j + 1];
    assert MergePass(s) == [2 * row[j]] + MergePass([0] + s[2..]);
    assert next[j + 1..] == [0] + s[2..];
    assert next[..j + 1] == row[..j] + [2 * row[j]];
    assert row[..j] + ([2 * row[j]] + MergePass([0] + s[2..]))
      == (row[..j] + [2 * row[j]]) + MergePass([0] + s[2..]);
  }

  /** The same iteration when the two cells differ: nothing changes, the pass advances. */
  lemma MergePassStepUnequal(row: Row, j: nat)
    requires j + 1 < |row| && row[j] != row[j + 1]
    ensures row[..j] + MergePass(row[j..]) == row[..j + 1] + MergePass(row[j + 1..])
  {
    var s := row[j..];
    assert s[0] == row[j] && s[1] == row[j + 1];
    assert MergePass(s) == [row[j]] + MergePass(s[1..]);
    assert row[j + 1..] == s[1..];
    assert row[..j + 1] == row[..j] + [row[j]];
    assert row[..j] + ([row[j]] + MergePass(s[1..])) == (row[..j] + [row[j]]) + MergePass(s[1..]);
  }

  lemma MergePassSum(r: Row)
    ensures SeqSum(MergePass(r)) == SeqSum(r)
    decreases |r|
  {
    if |r| >= 2 {
      if r[0] == r[1] {
        MergePassSum([0] + r[2..]);
        SeqSumAppend([2 * r[0]], MergePass([0] + r[2..]));
        assert r == [r[0]] + [r[1]] + r[2..];
        SeqSumAppend([r[0]] + [r[1]], r[2..]);
        SeqSumAppend([0], r[2..]);
      } else {
        MergePassSum(r[1..]);
        SeqSumAppend([r[0]], MergePass(r[1..]));
        assert r == [r[0]] + r[1..];
        SeqSumAppend([r[0]], r[1..]);
      }
    }
  }

  lemma {:induction false} MergePassTileValues(r: Row)
    requires TileValues(r)
    ensures TileValues(MergePass(r))
    decreases |r|
  {
    if |r| >= 2 {
      if r[0] == r[1] {
        var rest := [0] + r[2..];
        MergePassTileValues(rest);
        if r[0] != 0 {
          assert IsPowerOfTwo(2 * r[0]) by {
            assert (2 * r[0]) / 2 == r[0];
          }
        }
      } else {
        MergePassTileValues(r[1..]);
      }
    }
  }

  lemma {:induction false} MergePassOfZeros(n: nat)
    ensures MergePass(Zeros(n)) == Zeros(n)
  {
    if n >= 2 {
      assert [0] + Zeros(n)[2..] == Zeros(n - 1);
      MergePassOfZeros(n - 1);
    }
  }

  /**
    * On a compressed row (tiles `s` followed by `k` empty cells) the merge pass
    * leaves, in order, exactly the tiles of Collapse(s).
    */
  lemma {:induction false} MergePassOnPacked(s: Row, k: nat)
    requires forall i :: 0 <= i < |s| ==> s[i] != 0
    ensures NonZeros(MergePass(s + Zeros(k))) == Collapse(s)
    decreases |s|
  {
    var t := s + Zeros(k);
    if |s| == 0 {
      assert t == Zeros(k);
      MergePassOfZeros(k);
      NonZerosOfZeros(k);
    } else if |s| == 1 {
      if k == 0 {
        assert t == s;
      } else {
        assert t[1..] == Zeros(k);
        MergePassOfZeros(k);
        NonZerosAppend([s[0]], Zeros(k));
        NonZerosOfZeros(k);
      }
    } else if s[0] == s[1] {
      var u := s[2..] + Zeros(k);
      assert t[2..] == u;
      if |s| == 2 {
        assert [0] + u == Zeros(k + 1);
        MergePassOfZeros(k + 1);
        NonZerosAppend([2 * s[0]], Zeros(k + 1));
        NonZerosOfZeros(k + 1);
      } else {
        assert ([0] + u)[1..] == u;
        MergePassOnPacked(s[2..], k);
        NonZerosAppend([2 * s[0]], MergePass([0] + u));
        NonZerosAppend([0], MergePass(u));
      }
    } else {
      assert t[1..] == s[1..] + Zeros(k);
      MergePassOnPacked(s[1..], k);
      NonZerosAppend([s[0]], MergePass(t[1..]));
    }
  }

  /** A row with no legal left move is left as it is by the merge pass. */
  lemma {:induction false} MergePassNoPair(r: Row)
    requires !CanSlideLeft(r)
    ensures MergePass(r) == r
    decreases |r|
  {
    if |r| >= 2 {
      forall j | 0 < j < |r| - 1
        ensures !(r[1..][j] != 0 && (r[1..][j - 1] == r[1..][j] || r[1..][j - 1] == 0))
      {
        assert r[1..][j] == r[j + 1] && r[1..][j - 1] == r[j];
      }
      if r[0] == r[1] {
        assert r[1] == 0;
        assert [0] + r[2..] == r[1..];
      }
      MergePassNoPair(r[1..]);
    }
  }

  // ---------------------------------------------------------------------
  // The reference semantics Collapse
  // ---------------------------------------------------------------------

  lemma {:induction false} CollapseCount(s: Row)
    ensures |Collapse(s)| + Merges(s) == |s|
    decreases |s|
  {
    if |s| >= 2 {
      if s[0] == s[1] {
        CollapseCount(s[2..]);
      } else {
        CollapseCount(s[1..]);
      }
    }
  }

  lemma {:induction false} CollapseSum(s: Row)
    ensures SeqSum(Collapse(s)) == SeqSum(s)
    decreases |s|
  {
    if |s| >= 2 {
      if s[0] == s[1] {
        CollapseSum(s[2..]);
        SeqSumAppend([2 * s[0]], Collapse(s[2..]));
        assert s == [s[0], s[1]] + s[2..];
        SeqSumAppend([s[0], s[1]], s[2..]);
      } else {
        CollapseSum(s[1..]);
        SeqSumAppend([s[0]], Collapse(s[1..]));
      }
    }
  }

  lemma {:induction false} CollapseOccupied(s: Row)
    requires forall i :: 0 <= i < |s| ==> s[i] != 0
    ensures forall i :: 0 <= i < |Collapse(s)| ==> Collapse(s)[i] != 0
    decreases |s|
  {
    if |s| >= 2 {
      if s[0] == s[1] {
        CollapseOccupied(s[2..]);
      } else {
        CollapseOccupied(s[1..]);
      }
    }
  }

  lemma {:induction false} CollapseWithoutMerges(s: Row)
    requires Merges(s) == 0
    ensures Collapse(s) == s
    decreases |s|
  {
    if |s| >= 2 {
      CollapseWithoutMerges(s[1..]);
    }
  }

  /** An adjacent equal pair anywhere in the tiles guarantees a merge. */
  lemma {:induction false} EqualPairMerges(s: Row, j: nat)
    requires 0 < j < |s| && s[j - 1] == s[j]
    ensures Merges(s) > 0
    decreases |s|
  {
    if s[0] != s[1] {
      EqualPairMerges(s[1..], j - 1);
    }
  }

  // ---------------------------------------------------------------------
  // Merge
  // ---------------------------------------------------------------------

  /**
    * Merge agrees with the reference semantics: its result is Collapse of the
    * row's tiles, followed by empty cells. Hence no tile merges twice.
    */
  lemma MergeRowIsCollapse(r: Row)
    ensures MergeRow(r) == Collapse(NonZeros(r)) + Zeros(|r| - |Collapse(NonZeros(r))|)
  {
    var s := NonZeros(r);
    var m := MergePass(CompressRow(r));
    assert NonZeros(m) == Collapse(s) by {
      assert CompressRow(r) == s + Zeros(|r| - |s|);
      MergePassOnPacked(s, |r| - |s|);
    }
    assert MergeRow(r) == NonZeros(m) + Zeros(|m| - |NonZeros(m)|);
  }

  /** Merge keeps the sum of the row, so a move keeps the score. */
  lemma MergeRowSum(r: Row)
    ensures SeqSum(MergeRow(r)) == SeqSum(r)
  {
    CompressRowSum(r);
    MergePassSum(CompressRow(r));
    CompressRowSum(MergePass(CompressRow(r)));
  }

  /** If every tile is a power of two before Merge, so is every tile after it. */
  lemma MergeRowTileValues(r: Row)
    requires TileValues(r)
    ensures TileValues(MergeRow(r))
  {
    CompressRowTileValues(r);
    MergePassTileValues(CompressRow(r));
    CompressRowTileValues(MergePass(CompressRow(r)));
  }

  /** The tiles left after Merge, read left to right, are the Collapse of the tiles before it. */
  lemma MergeRowNonZeros(r: Row)
    ensures NonZeros(MergeRow(r)) == Collapse(NonZeros(r))
  {
    var s := NonZeros(r);
    var c := Collapse(s);
    var z := Zeros(|r| - |c|);
    assert MergeRow(r) == c + z by {
      MergeRowIsCollapse(r);
    }
    CollapseOccupied(s);
    NonZerosOfFull(c);
    NonZerosAppend(c, z);
    NonZerosOfZeros(|r| - |c|);
  }

  /** Each merge removes exactly one tile from the row. */
  lemma MergeRowCount(r: Row)
    ensures Count(MergeRow(r)) + Merges(NonZeros(r)) == Count(r)
  {
    MergeRowNonZeros(r);
    CollapseCount(NonZeros(r));
  }

  /** A Merge in which no pair merges only slides: the tiles keep their values and order. */
  lemma MergeRowWithoutMerges(r: Row)
    requires Merges(NonZeros(r)) == 0
    ensures NonZeros(MergeRow(r)) == NonZeros(r)
    ensures MergeRow(r) == CompressRow(r)
  {
    MergeRowNonZeros(r);
    CollapseWithoutMerges(NonZeros(r));
    MergeRowIsCollapse(r);
  }

  /** One merging iteration of the pass (double the left tile, clear the right) removes one tile. */
  lemma MergeStepCount(row: Row, j: nat)
    requires j + 1 < |row| && row[j] != 0 && row[j] == row[j + 1]
    ensures Count(row[j := 2 * row[j]][j + 1 := 0]) + 1 == Count(row)
  {
    var after := row[j := 2 * row[j]][j + 1 := 0];
    assert row == row[..j] + ([row[j]] + ([row[j + 1]] + row[j + 2..]));
    assert after == row[..j] + ([2 * row[j]] + ([0] + row[j + 2..]));
    NonZerosAppend(row[..j], [row[j]] + ([row[j + 1]] + row[j + 2..]));
    NonZerosAppend([row[j]], [row[j + 1]] + row[j + 2..]);
    NonZerosAppend([row[j + 1]], row[j + 2..]);
    NonZerosAppend(row[..j], [2 * row[j]] + ([0] + row[j + 2..]));
    NonZerosAppend([2 * row[j]], [0] + row[j + 2..]);
    NonZerosAppend([0], row[j + 2..]);
  }

  /**
    * Merge leaves a row unchanged exactly when the row has no legal left move
    * (the left test of MoveIsAvailable).
    */
  lemma MergeRowUnchangedIff(r: Row)
    ensures MergeRow(r) == r <==> !CanSlideLeft(r)
  {
    if !CanSlideLeft(r) {
      assert Packed(r);
      PackedForm(r);
      assert CompressRow(r) == r;
      MergePassNoPair(r);
    } else {
      var j :| 0 < j < |r| && r[j] != 0 && (r[j - 1] == r[j] || r[j - 1] == 0);
      CompressRowSpec(MergePass(CompressRow(r)));
      if Packed(r) {
        assert r[j - 1] != 0 && r[j - 1] == r[j];
        PackedForm(r);
        var s := NonZeros(r);
        assert j < |s|;
        assert s[j - 1] == s[j];
        EqualPairMerges(s, j);
        MergeRowCount(r);
      }
    }
  }

  /** A Merge that changes the row leaves at least one empty cell in it. */
  lemma MergeRowMakesRoom(r: Row)
    requires MergeRow(r) != r
    ensures exists k :: 0 <= k < |r| && MergeRow(r)[k] == 0
  {
    var s := NonZeros(r);
    var c := Collapse(s);
    MergeRowIsCollapse(r);
    CollapseCount(s);
    if |c| < |r| {
      assert MergeRow(r)[|r| - 1] == 0;
    } else {
      FullWhenCountIsLength(r);
      CollapseWithoutMerges(s);
      assert false;
    }
  }

  /** Four equal tiles make two pairs, not one tile of 16: no cell merges twice. */
  lemma MergeRowFourEqual()
    ensures MergeRow([4, 4, 4, 4]) == [8, 8, 0, 0]
  {
    MergeRowIsCollapse([4, 4, 4, 4]);
    assert NonZeros([4, 4, 4, 4]) == [4, 4, 4, 4];
  }

  /** Of three equal tiles, the two nearest the wall merge. */
  lemma MergeRowThreeEqual()
    ensures MergeRow([2, 2, 2, 4]) == [4, 2, 4, 0]
  {
    MergeRowIsCollapse([2, 2, 2, 4]);
    assert NonZeros([2, 2, 2, 4]) == [2, 2, 2, 4];
  }

  /** Tiles separated by empty cells still merge. */
  lemma MergeRowAcrossGaps()
    ensures MergeRow([0, 2, 0, 2]) == [4, 0, 0, 0]
  {
    MergeRowIsCollapse([0, 2, 0, 2]);
    assert NonZeros([0, 2, 0, 2]) == [2, 2];
  }

}
