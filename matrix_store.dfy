/** The square matrix of C++ `int`s and its initial fill (`fill_matrix`).
    The 20000 x 20000 global array becomes an `array2<Int32>` of any square
    size n, and the random source becomes a sequence of raw `rand()` results. */
module MatrixStore {
  import opened Int32Arith

  /** A snapshot of the matrix contents: row i, column j is `g[i][j]`. */
  type Grid = seq<seq<int>>

  ghost predicate IsSquare(g: Grid) {
    forall i :: 0 <= i < |g| ==> |g[i]| == |g|
  }

  /** The column of row `i` on the secondary (anti-)diagonal of an n x n matrix. */
  function AntiDiagonal(n: int, i: int): (c: int)
    ensures 0 <= i < n ==> 0 <= c < n
    ensures c + i == n - 1
  {
    n - 1 - i
  }

  /** The current contents of the array as a Grid. */
  ghost function Cells(m: array2<Int32>): (g: Grid)
    reads m
    ensures |g| == m.Length0
    ensures forall i :: 0 <= i < |g| ==> |g[i]| == m.Length1
    ensures forall i, j :: 0 <= i < m.Length0 && 0 <= j < m.Length1 ==> g[i][j] == m[i, j]
  {
    seq(m.Length0, i requires 0 <= i < m.Length0 reads m =>
      seq(m.Length1, j requires 0 <= j < m.Length1 reads m => m[i, j] as int))
  }

  /** Two square grids of one size with the same cells are the same grid. */
  lemma GridExtensionality(a: Grid, b: Grid)
    requires IsSquare(a) && IsSquare(b) && |a| == |b|
    requires forall i, j :: 0 <= i < |a| && 0 <= j < |a| ==> a[i][j] == b[i][j]
    ensures a == b
  {
    forall i | 0 <= i < |a|
      ensures a[i] == b[i]
    {
      assert |a[i]| == |b[i]|;
    }
  }

  /** How many `rand()` calls `fill_matrix` makes on an n x n matrix: one per
      cell off the anti-diagonal. */
  function DrawCount(n: nat): (k: nat)
    ensures k == n * (n - 1)
  {
    n * n - n
  }

  /** The position in the `rand()` stream of the draw that fills cell (i, j):
      cells are visited row by row, left to right, and the anti-diagonal cell
      consumes no draw. */
  function DrawIndex(n: nat, i: nat, j: nat): (k: nat)
    requires i < n && j < n && j != AntiDiagonal(n, i)
    ensures k < DrawCount(n)
  {
    DrawIndexBound(n, i, j);
    i * (n - 1) + (if j < AntiDiagonal(n, i) then j else j - 1)
  }

  lemma DrawIndexBound(n: nat, i: nat, j: nat)
    requires i < n && j < n && j != AntiDiagonal(n, i)
    ensures 0 <= i * (n - 1) + (if j < AntiDiagonal(n, i) then j else j - 1) < n * n - n
  {
    assert n >= 2;
    assert i * (n - 1) <= (n - 1) * (n - 1);
  }

  /** No two cells of the matrix are filled from the same draw, so each cell
      is an independent draw of the random source. */
  lemma {:induction false} DrawIndexInjective(n: nat, i: nat, j: nat, i': nat, j': nat)
    requires i < n && j < n && j != AntiDiagonal(n, i)
    requires i' < n && j' < n && j' != AntiDiagonal(n, i')
    requires (i, j) != (i', j')
    ensures DrawIndex(n, i, j) != DrawIndex(n, i', j')
  {
    var c := if j < AntiDiagonal(n, i) then j else j - 1;
    var c' := if j' < AntiDiagonal(n, i') then j' else j' - 1;
    assert 0 <= c < n - 1 && 0 <= c' < n - 1;
    if i < i' {
      RowsAreApart(i, i', n - 1);
    } else if i' < i {
      RowsAreApart(i', i, n - 1);
    }
  }

  /** Every one of the DrawCount(n) draws fills some off-diagonal cell, so
      together with DrawIndexInjective the off-diagonal cells and the draws
      `fill_matrix` makes correspond one to one. */
  lemma DrawIndexOnto(n: nat, k: nat)
    requires k < DrawCount(n)
    ensures exists i: nat, j: nat :: i < n && j < n && j != AntiDiagonal(n, i) && DrawIndex(n, i, j) == k
  {
    assert n >= 2;
    var w: nat := n - 1;
    var i: nat := k / w;
    var p: nat := k % w;
    assert k == i * w + p;
    assert i < n by {
      if i >= n {
        RowsAreApart(n - 1, i, w);
      }
    }
    var j: nat := if p < AntiDiagonal(n, i) then p else p + 1;
    assert DrawIndex(n, i, j) == k;
  }

  /** A whole row of draws separates the first draw of two different rows. */
  lemma RowsAreApart(a: nat, b: nat, w: nat)
    requires a < b
    ensures a * w + w <= b * w
  {
    var d: nat := b - a - 1;
    assert b * w == a * w + w + d * w;
  }

  /** `rand() % 10 + 1`: C++ `%` truncates toward zero, which agrees with
      Dafny's `%` because `rand()` is never negative. */
  function CellValue(draw: nat): (v: int)
    ensures 1 <= v <= 10
    ensures (draw - v + 1) % 10 == 0
  {
    draw % 10 + 1
  }

  /** The value `fill_matrix` writes into cell (i, j). */
  function FilledCell(n: nat, draws: seq<nat>, i: nat, j: nat): (v: int)
    requires |draws| >= DrawCount(n) && i < n && j < n
    ensures j == AntiDiagonal(n, i) ==> v == 1
    ensures j != AntiDiagonal(n, i) ==> 1 <= v <= 10
  {
    if j == AntiDiagonal(n, i) then 1 else CellValue(draws[DrawIndex(n, i, j)])
  }

  /** The matrix `fill_matrix` leaves behind, given the stream of draws. */
  function FilledGrid(n: nat, draws: seq<nat>): (g: Grid)
    requires |draws| >= DrawCount(n)
    ensures IsSquare(g) && |g| == n
    ensures forall i, j :: 0 <= i < n && 0 <= j < n ==> g[i][j] == FilledCell(n, draws, i, j)
  {
    seq(n, i requires 0 <= i < n => seq(n, j requires 0 <= j < n => FilledCell(n, draws, i, j)))
  }

  /** The structural invariant of a freshly filled matrix: every anti-diagonal
      cell is 1 and every other cell lies in [1, 10]. */
  ghost predicate IsFreshlyFilled(g: Grid) {
    && IsSquare(g)
    && (forall i :: 0 <= i < |g| ==> g[i][AntiDiagonal(|g|, i)] == 1)
    && (forall i, j :: 0 <= i < |g| && 0 <= j < |g| && j != AntiDiagonal(|g|, i) ==> 1 <= g[i][j] <= 10)
  }

  /** Whatever the random source yields, the filled matrix keeps the fill
      invariant and each off-diagonal cell is its own draw reduced to [1, 10]. */
  lemma FilledGridIsFreshlyFilled(n: nat, draws: seq<nat>)
    requires |draws| >= DrawCount(n)
    ensures IsFreshlyFilled(FilledGrid(n, draws))
    ensures |FilledGrid(n, draws)| == n
    ensures forall i, j :: 0 <= i < n && 0 <= j < n && j != AntiDiagonal(n, i) ==>
      FilledGrid(n, draws)[i][j] == draws[DrawIndex(n, i, j)] % 10 + 1
  {
  }

  /** `fill_matrix`: visit every cell row by row; the anti-diagonal cell gets 1,
      every other cell the next draw reduced to [1, 10]. */
  method FillMatrix(m: array2<Int32>, draws: seq<nat>)
    requires m.Length0 == m.Length1
    requires |draws| >= DrawCount(m.Length0)
    modifies m
    ensures Cells(m) == FilledGrid(m.Length0, draws)
  {
    var n := m.Length0;
    ghost var filled := FilledGrid(n, draws);
    var next := 0;
    for i := 0 to n
      invariant next == i * (n - 1)
      invariant forall r, c :: 0 <= r < i && 0 <= c < n ==> m[r, c] == FilledCell(n, draws, r, c)
    {
      next := FillRow(m, draws, i, next);
    }
    FilledGridIsFreshlyFilled(n, draws);
    GridExtensionality(Cells(m), filled);
  }

  /** One iteration of the outer loop of `fill_matrix`: fill row `i`, taking
      draws from position `next` on, and return the position after them. */
  method FillRow(m: array2<Int32>, draws: seq<nat>, i: nat, next: nat) returns (next': nat)
    requires m.Length0 == m.Length1 && i < m.Length0
    requires |draws| >= DrawCount(m.Length0)
    requires next == i * (m.Length0 - 1)
    modifies m
    ensures next' == (i + 1) * (m.Length0 - 1)
    ensures forall c :: 0 <= c < m.Length0 ==> m[i, c] == FilledCell(m.Length0, draws, i, c)
    ensures forall r, c :: 0 <= r < m.Length0 && r != i && 0 <= c < m.Length0 ==> m[r, c] == old(m[r, c])
  {
    var n := m.Length0;
    next' := next;
    for j := 0 to n
      invariant next' == next + (if j <= AntiDiagonal(n, i) then j else j - 1)
      invariant forall c :: 0 <= c < j ==> m[i, c] == FilledCell(n, draws, i, c)
      invariant forall r, c :: 0 <= r < n && r != i && 0 <= c < n ==> m[r, c] == old(m[r, c])
    {
      if j == AntiDiagonal(n, i) {
        m[i, j] := 1;
      } else {
        assert next' == DrawIndex(n, i, j);
        assert FilledCell(n, draws, i, j) == CellValue(draws[next']);
        m[i, j] := CellValue(draws[next']);
        next' := next' + 1;
      }
    }
    assert next + (n - 1) == (i + 1) * (n - 1);
  }
}
