/**
 * Generation of the square digit grid. The source draws its randomness from
 * `Math.random`; here the draws are inputs, each a real in [0, 1): one per cell
 * in row-major order, then one for the forced row and one for the forced column.
 */
module Grid {
  import opened Types

  /** A digit drawn as `floor(u * 10)`: uniform over 0..9 when `u` is uniform over [0, 1). */
  function Digit(u: real): (d: int)
    requires 0.0 <= u < 1.0
    ensures 0 <= d <= 9
    ensures d as real <= u * 10.0 < d as real + 1.0
  {
    (u * 10.0).Floor
  }

  /** An index drawn as `floor(u * n)`: always a valid position in a grid of side `n`. */
  function RandomIndex(u: real, n: nat): (i: nat)
    requires 0.0 <= u < 1.0 && n > 0
    ensures i < n
  {
    assert u * n as real < n as real by {
      assert (1.0 - u) * n as real > 0.0;
    }
    (u * n as real).Floor
  }

  /** `n` rows of `n` entries each. */
  predicate IsSquare<T>(m: seq<seq<T>>, n: nat) {
    |m| == n && forall i :: 0 <= i < n ==> |m[i]| == n
  }

  /** Every entry is a decimal digit. */
  predicate AllDigits(m: seq<seq<int>>) {
    forall i, j :: 0 <= i < |m| && 0 <= j < |m[i]| ==> 0 <= m[i][j] <= 9
  }

  /** The digit `d` occurs somewhere in the grid. */
  ghost predicate Holds(m: seq<seq<int>>, d: int) {
    exists i, j :: 0 <= i < |m| && 0 <= j < |m[i]| && m[i][j] == d
  }

  /** One draw in [0, 1) for every cell of an n-by-n grid. */
  predicate ValidDraws(draws: seq<seq<real>>, n: nat) {
    IsSquare(draws, n) &&
    forall i, j :: 0 <= i < n && 0 <= j < n ==> 0.0 <= draws[i][j] < 1.0
  }

  /**
   * The grid the generator is meant to produce: cell (i, j) holds the digit
   * drawn for it, except the one cell picked by `rowDraw` and `colDraw`, which
   * holds the chosen digit.
   */
  function Generated(chosen: int, n: nat, draws: seq<seq<real>>, rowDraw: real, colDraw: real): seq<seq<int>>
    requires n > 0 && ValidDraws(draws, n)
    requires 0.0 <= rowDraw < 1.0 && 0.0 <= colDraw < 1.0
  {
    var r, c := RandomIndex(rowDraw, n), RandomIndex(colDraw, n);
    seq(n, i requires 0 <= i < n =>
      seq(n, j requires 0 <= j < n => if i == r && j == c then chosen else Digit(draws[i][j])))
  }

  /** The generated grid is n-by-n and holds the chosen digit at the picked cell. */
  lemma GeneratedShape(chosen: int, n: nat, draws: seq<seq<real>>, rowDraw: real, colDraw: real)
    requires n > 0 && ValidDraws(draws, n)
    requires 0.0 <= rowDraw < 1.0 && 0.0 <= colDraw < 1.0
    ensures var m := Generated(chosen, n, draws, rowDraw, colDraw);
            IsSquare(m, n) && m[RandomIndex(rowDraw, n)][RandomIndex(colDraw, n)] == chosen
  {
  }

  /** Whatever the draws, the chosen digit occurs in the generated grid. */
  lemma GeneratedHoldsChosen(chosen: int, n: nat, draws: seq<seq<real>>, rowDraw: real, colDraw: real)
    requires n > 0 && ValidDraws(draws, n)
    requires 0.0 <= rowDraw < 1.0 && 0.0 <= colDraw < 1.0
    ensures Holds(Generated(chosen, n, draws, rowDraw, colDraw), chosen)
  {
    var m := Generated(chosen, n, draws, rowDraw, colDraw);
    GeneratedShape(chosen, n, draws, rowDraw, colDraw);
    var r, c := RandomIndex(rowDraw, n), RandomIndex(colDraw, n);
    assert 0 <= r < |m| && 0 <= c < |m[r]| && m[r][c] == chosen;
  }

  /** A chosen decimal digit yields a grid of decimal digits only. */
  lemma GeneratedAllDigits(chosen: int, n: nat, draws: seq<seq<real>>, rowDraw: real, colDraw: real)
    requires n > 0 && ValidDraws(draws, n)
    requires 0.0 <= rowDraw < 1.0 && 0.0 <= colDraw < 1.0
    requires 0 <= chosen <= 9
    ensures AllDigits(Generated(chosen, n, draws, rowDraw, colDraw))
  {
  }

  /**
   * Builds an n-by-n grid (n is the grid size of the canvas, see
   * `Geometry.GridSize`) row by row from the per-cell draws, then overwrites the
   * cell picked by `rowDraw` and `colDraw` with the chosen digit. Without a
   * chosen digit there is nothing to find and the grid is empty.
   */
  method GenerateNumberMatrix(chosen: Option<int>, n: nat, draws: seq<seq<real>>, rowDraw: real, colDraw: real)
    returns (m: seq<seq<int>>)
    requires n > 0
    requires ValidDraws(draws, n)
    requires 0.0 <= rowDraw < 1.0 && 0.0 <= colDraw < 1.0
    ensures m == if chosen.None? then [] else Generated(chosen.value, n, draws, rowDraw, colDraw)
  {
    if chosen.None? {
      return [];
    }
    var matrix: seq<seq<int>> := [];
    var i := 0;
    while i < n
      invariant 0 <= i <= n
      invariant |matrix| == i
      invariant forall a :: 0 <= a < i ==> |matrix[a]| == n
      invariant forall a, b :: 0 <= a < i && 0 <= b < n ==> matrix[a][b] == Digit(draws[a][b])
    {
      var row: seq<int> := [];
      var j := 0;
      while j < n
        invariant 0 <= j <= n
        invariant |row| == j
        invariant forall b :: 0 <= b < j ==> row[b] == Digit(draws[i][b])
      {
        row := row + [Digit(draws[i][j])];
        j := j + 1;
      }
      matrix := matrix + [row];
      i := i + 1;
    }
    var r, c := RandomIndex(rowDraw, n), RandomIndex(colDraw, n);
    m := matrix[r := matrix[r][c := chosen.value]];
    ghost var g := Generated(chosen.value, n, draws, rowDraw, colDraw);
    assert |m| == |g|;
    forall a | 0 <= a < n
      ensures m[a] == g[a]
    {
      assert |m[a]| == |g[a]|;
    }
  }
}
