/** `compute_product(start, end)`: for every row in [start, end), multiply the
    row's current cells together with 32-bit wrap-around and store the result
    in the row's anti-diagonal cell. */
module RowProductKernel {
  import opened Int32Arith
  import opened MatrixStore

  /** The mathematical (unbounded) product of a row. */
  function Product(row: seq<int>): (p: int)
    decreases |row|
  {
    if row == [] then 1 else Product(row[..|row| - 1]) * row[|row| - 1]
  }

  /** The accumulator of the inner loop: start at 1 and, cell by cell from the
      left, multiply with wrap-around. It ends at the row's product reduced
      to 32 bits. */
  function RowProduct(row: seq<int>): (r: Int32)
    decreases |row|
    ensures r == Wrap32(Product(row))
  {
    if row == [] then
      1
    else
      var prefix := row[..|row| - 1];
      WrapMul(Product(prefix), row[|row| - 1]);
      Wrap32(RowProduct(prefix) * row[|row| - 1])
  }

  lemma {:induction false} ProductConcat(a: seq<int>, b: seq<int>)
    decreases |b|
    ensures Product(a + b) == Product(a) * Product(b)
  {
    if b == [] {
      assert a + b == a;
    } else {
      var b' := b[..|b| - 1];
      assert (a + b)[..|a + b| - 1] == a + b';
      ProductConcat(a, b');
      assert Product(a + b) == Product(a) * Product(b') * b[|b| - 1];
    }
  }

  /** The cells of row `i` other than its anti-diagonal one. */
  function OffDiagonal(row: seq<int>, i: int): (rest: seq<int>)
    requires 0 <= i < |row|
    ensures |rest| == |row| - 1
  {
    var c := AntiDiagonal(|row|, i);
    row[..c] + row[c + 1..]
  }

  /** A row's product is its anti-diagonal cell times the product of the others. */
  lemma ProductSplit(row: seq<int>, i: int)
    requires 0 <= i < |row|
    ensures Product(row) == row[AntiDiagonal(|row|, i)] * Product(OffDiagonal(row, i))
  {
    var c := AntiDiagonal(|row|, i);
    SplitAt(row, c);
    ProductAround(row[..c], row[c], row[c + 1..]);
  }

  lemma SplitAt(row: seq<int>, c: int)
    requires 0 <= c < |row|
    ensures row == row[..c] + [row[c]] + row[c + 1..]
  {
  }

  lemma ProductAround(left: seq<int>, x: int, right: seq<int>)
    ensures Product(left + [x] + right) == x * Product(left + right)
  {
    var pl, pr := Product(left), Product(right);
    assert Product(left + [x] + right) == Product(left + [x]) * pr by {
      ProductConcat(left + [x], right);
    }
    assert Product(left + [x]) == pl * x by {
      ProductConcat(left, [x]);
      assert [x][..0] == [];
    }
    assert Product(left + right) == pl * pr by {
      ProductConcat(left, right);
    }
    MulRotate(pl, x, pr);
  }

  lemma MulRotate(a: int, b: int, c: int)
    ensures (a * b) * c == b * (a * c)
  {
  }

  /** Overwriting the anti-diagonal cell does not change the other cells. */
  lemma OffDiagonalUpdate(row: seq<int>, i: int, v: int)
    requires 0 <= i < |row|
    ensures OffDiagonal(row[AntiDiagonal(|row|, i) := v], i) == OffDiagonal(row, i)
  {
    var c := AntiDiagonal(|row|, i);
    assert row[c := v][..c] == row[..c];
    assert row[c := v][c + 1..] == row[c + 1..];
  }

  /** Row `i` after the kernel visited it. */
  function UpdatedRow(row: seq<int>, i: int): (r: seq<int>)
    requires 0 <= i < |row|
    ensures |r| == |row|
    ensures r[AntiDiagonal(|row|, i)] == Wrap32(Product(row))
    ensures forall j :: 0 <= j < |row| && j != AntiDiagonal(|row|, i) ==> r[j] == row[j]
  {
    row[AntiDiagonal(|row|, i) := RowProduct(row)]
  }

  /** The kernel applied to an arbitrary set of rows. Each visited row is
      computed from its own cells only, so the set may be split freely. */
  function ApplyRows(g: Grid, rows: set<int>): (h: Grid)
    requires IsSquare(g)
    ensures IsSquare(h) && |h| == |g|
    ensures forall i :: 0 <= i < |g| && i !in rows ==> h[i] == g[i]
    ensures forall i :: 0 <= i < |g| && i in rows ==> h[i] == UpdatedRow(g[i], i)
  {
    seq(|g|, i requires 0 <= i < |g| => if i in rows then UpdatedRow(g[i], i) else g[i])
  }

  /** The rows of the half-open range [start, end); empty when start >= end. */
  function Span(start: int, end: int): (s: set<int>)
    decreases end - start
    ensures forall i :: i in s <==> start <= i < end
  {
    if end <= start then {} else Span(start, end - 1) + {end - 1}
  }

  /** What `compute_product(start, end)` does to the matrix. */
  function ComputeProduct(g: Grid, start: int, end: int): (h: Grid)
    requires IsSquare(g)
    ensures IsSquare(h) && |h| == |g|
    ensures forall i, j :: 0 <= i < |g| && 0 <= j < |g| && !(start <= i < end && j == AntiDiagonal(|g|, i)) ==>
      h[i][j] == g[i][j]
    ensures forall i :: 0 <= i < |g| && start <= i < end ==> h[i][AntiDiagonal(|g|, i)] == Wrap32(Product(g[i]))
  {
    seq(|g|, i requires 0 <= i < |g| => if start <= i < end then UpdatedRow(g[i], i) else g[i])
  }

  /** A call over [start, end) is the kernel applied to the rows of that range. */
  lemma ComputeProductIsApplyRows(g: Grid, start: int, end: int)
    requires IsSquare(g)
    ensures ComputeProduct(g, start, end) == ApplyRows(g, Span(start, end))
  {
  }

  /** Running the kernel over two disjoint row sets one after the other is
      running it once over their union: no row reads another row's cells. */
  lemma ApplyRowsCompose(g: Grid, s: set<int>, t: set<int>)
    requires IsSquare(g)
    requires s !! t
    ensures ApplyRows(ApplyRows(g, s), t) == ApplyRows(g, s + t)
  {
    var h := ApplyRows(g, s);
    forall i | 0 <= i < |g|
      ensures ApplyRows(h, t)[i] == ApplyRows(g, s + t)[i]
    {
      if i in t {
        assert h[i] == g[i];
      }
    }
  }

  /** One pass over a row multiplies the product of the off-diagonal cells
      into whatever the anti-diagonal cell currently holds. */
  lemma {:induction false} AntiDiagonalAfterPass(g: Grid, start: int, end: int, i: int)
    requires IsSquare(g)
    requires 0 <= i < |g| && start <= i < end
    ensures ComputeProduct(g, start, end)[i][AntiDiagonal(|g|, i)] ==
      Wrap32(g[i][AntiDiagonal(|g|, i)] * Product(OffDiagonal(g[i], i)))
  {
    ProductSplit(g[i], i);
  }

  /** On a freshly filled matrix the anti-diagonal cell was 1, so the value
      written is exactly the product of the row's other cells. */
  lemma FreshRowProduct(g: Grid, i: int)
    requires IsFreshlyFilled(g)
    requires 0 <= i < |g|
    ensures ComputeProduct(g, 0, |g|)[i][AntiDiagonal(|g|, i)] == Wrap32(Product(OffDiagonal(g[i], i)))
  {
    assert g[i][AntiDiagonal(|g|, i)] == 1;
    AntiDiagonalAfterPass(g, 0, |g|, i);
  }

  /** A second pass multiplies the row's other cells into the first result once
      more: the anti-diagonal ends at the first result times the off-diagonal
      product, wrapped. */
  lemma {:induction false} SecondPassProduct(g: Grid, i: int)
    requires IsSquare(g)
    requires 0 <= i < |g|
    ensures var once := ComputeProduct(g, 0, |g|);
      ComputeProduct(once, 0, |g|)[i][AntiDiagonal(|g|, i)] ==
      Wrap32(once[i][AntiDiagonal(|g|, i)] * Product(OffDiagonal(g[i], i)))
  {
    var once := ComputeProduct(g, 0, |g|);
    AntiDiagonalAfterPass(once, 0, |g|, i);
    assert once[i] == g[i][AntiDiagonal(|g|, i) := Wrap32(Product(g[i]))];
    OffDiagonalUpdate(g[i], i, Wrap32(Product(g[i])));
  }

  /** So when a row's first result has wrapped to 0 (as it does once the row's
      cells hold 32 or more factors of two), the second pass writes 0 again. */
  lemma SecondPassKeepsZero(g: Grid, i: int)
    requires IsSquare(g)
    requires 0 <= i < |g|
    requires Wrap32(Product(g[i])) == 0
    ensures ComputeProduct(ComputeProduct(g, 0, |g|), 0, |g|)[i][AntiDiagonal(|g|, i)] == 0
  {
    SecondPassProduct(g, i);
    WrapOfInt32(0);
  }

  /** The end-to-end scenario of a 4 x 4 matrix whose anti-diagonal is 1 and
      whose other cells are 2: every row first gets 2 * 2 * 2 = 8 ... */
  lemma FirstPassScenario()
    ensures ComputeProduct([[2, 2, 2, 1], [2, 2, 1, 2], [2, 1, 2, 2], [1, 2, 2, 2]], 0, 4)
      == [[2, 2, 2, 8], [2, 2, 8, 2], [2, 8, 2, 2], [8, 2, 2, 2]]
  {
    var g := [[2, 2, 2, 1], [2, 2, 1, 2], [2, 1, 2, 2], [1, 2, 2, 2]];
    ProductOfFour(2, 2, 2, 1);
    ProductOfFour(2, 2, 1, 2);
    ProductOfFour(2, 1, 2, 2);
    ProductOfFour(1, 2, 2, 2);
    WrapOfInt32(8);
    GridExtensionality(ComputeProduct(g, 0, 4), [[2, 2, 2, 8], [2, 2, 8, 2], [2, 8, 2, 2], [8, 2, 2, 2]]);
  }

  /** ... and a second pass over the result gives 2 * 2 * 2 * 8 = 64, not 8. */
  lemma SecondPassScenario()
    ensures ComputeProduct([[2, 2, 2, 8], [2, 2, 8, 2], [2, 8, 2, 2], [8, 2, 2, 2]], 0, 4)
      == [[2, 2, 2, 64], [2, 2, 64, 2], [2, 64, 2, 2], [64, 2, 2, 2]]
  {
    var once := [[2, 2, 2, 8], [2, 2, 8, 2], [2, 8, 2, 2], [8, 2, 2, 2]];
    ProductOfFour(2, 2, 2, 8);
    ProductOfFour(2, 2, 8, 2);
    ProductOfFour(2, 8, 2, 2);
    ProductOfFour(8, 2, 2, 2);
    WrapOfInt32(64);
    GridExtensionality(ComputeProduct(once, 0, 4), [[2, 2, 2, 64], [2, 2, 64, 2], [2, 64, 2, 2], [64, 2, 2, 2]]);
  }

  lemma ProductOfFour(a: int, b: int, c: int, d: int)
    ensures Product([a, b, c, d]) == a * b * c * d
  {
    assert [a, b, c, d][..3] == [a, b, c];
    assert [a, b, c][..2] == [a, b];
    assert [a, b][..1] == [a];
    assert [a][..0] == [];
    assert Product([a]) == a;
    assert Product([a, b]) == a * b;
    assert Product([a, b, c]) == a * b * c;
  }

  /** The inner loop of `compute_product`: the accumulated product of row `i`
      as the matrix currently holds it. */
  method AccumulateRow(m: array2<Int32>, i: int, ghost row: seq<int>) returns (product: Int32)
    requires 0 <= i < m.Length0
    requires |row| == m.Length1 && forall j :: 0 <= j < m.Length1 ==> m[i, j] == row[j]
    ensures product == Wrap32(Product(row))
  {
    product := 1;
    var j := 0;
    while j < m.Length1
      invariant 0 <= j <= m.Length1
      invariant product == RowProduct(row[..j])
    {
      assert row[..j + 1][..j] == row[..j];
      product := Wrap32(product * m[i, j]);
      j := j + 1;
    }
    assert row[..j] == row;
  }

  /** `compute_product(start, end)` on the matrix in place. */
  method ComputeProductInPlace(m: array2<Int32>, start: int, end: int)
    requires m.Length0 == m.Length1
    requires start < end ==> 0 <= start && end <= m.Length0
    modifies m
    ensures Cells(m) == ComputeProduct(old(Cells(m)), start, end)
  {
    var n := m.Length0;
    ghost var g := Cells(m);
    var i := start;
    while i < end
      invariant i == start || start < i <= end
      invariant forall r, c :: 0 <= r < n && 0 <= c < n ==> m[r, c] == KernelCell(g, start, i, r, c)
    {
      var product := AccumulateRow(m, i, g[i]);
      m[i, AntiDiagonal(n, i)] := product;
      i := i + 1;
    }
    assert i == if start <= end then end else start;
    KernelByCells(Cells(m), g, start, end);
  }

  /** Cell (r, c) once the kernel has run over rows [start, end) of `g`. */
  function KernelCell(g: Grid, start: int, end: int, r: int, c: int): (v: int)
    requires IsSquare(g) && 0 <= r < |g| && 0 <= c < |g|
  {
    if start <= r < end && c == AntiDiagonal(|g|, r) then Wrap32(Product(g[r])) else g[r][c]
  }

  /** A grid that agrees cell by cell with the contract of `ComputeProduct`
      is its result. */
  lemma KernelByCells(a: Grid, g: Grid, start: int, end: int)
    requires IsSquare(a) && IsSquare(g) && |a| == |g|
    requires forall r, c :: 0 <= r < |g| && 0 <= c < |g| ==> a[r][c] == KernelCell(g, start, end, r, c)
    ensures a == ComputeProduct(g, start, end)
  {
    var h := ComputeProduct(g, start, end);
    forall r, c | 0 <= r < |g| && 0 <= c < |g|
      ensures a[r][c] == h[r][c]
    {
    }
    GridExtensionality(a, h);
  }
}
