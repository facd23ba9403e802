/** In-place Gauss-Jordan inversion over GF(2^8). */
module GaussJordan {
  import opened Bytes
  import opened GF256
  import opened Logarithms
  import opened GaloisTables
  import opened LinearAlgebra
  import opened Wrappers

  /** The array holds the matrix. */
  ghost predicate Holds(a: array2<Byte>, m: Matrix<Byte>)
    reads a
  {
    && GF.Shape(m, a.Length0, a.Length1)
    && forall r, c | 0 <= r < a.Length0 && 0 <= c < a.Length1 :: a[r, c] == m[r][c]
  }

  method SwapRows(a: array2<Byte>, i: nat, j: nat, ghost m: Matrix<Byte>)
    requires Holds(a, m) && i < a.Length0 && j < a.Length0
    modifies a
    ensures Holds(a, m[i := m[j]][j := m[i]])
  {
    for c := 0 to a.Length1
      invariant forall r, d | 0 <= r < a.Length0 && c <= d < a.Length1 :: a[r, d] == m[r][d]
      invariant forall r, d | 0 <= r < a.Length0 && 0 <= d < c :: a[r, d] == m[i := m[j]][j := m[i]][r][d]
    {
      a[i, c], a[j, c] := a[j, c], a[i, c];
    }
  }

  method ScaleRow(t: Tables, a: array2<Byte>, i: nat, f: Byte, ghost m: Matrix<Byte>)
    requires t.Valid() && Holds(a, m) && i < a.Length0
    modifies a
    ensures t.Valid() && Holds(a, m[i := GF.Scaled(m[i], f)])
  {
    hide Doubling.Mul;
    for c := 0 to a.Length1
      invariant t.Valid()
      invariant forall r, d | 0 <= r < a.Length0 && 0 <= d < a.Length1 && (r != i || d >= c) :: a[r, d] == m[r][d]
      invariant forall d | 0 <= d < c :: a[i, d] == Mul(m[i][d], f)
    {
      a[i, c] := t.GfMul(a[i, c], f);
    }
  }

  /** Adds f times row i to row r. */
  method Eliminate(t: Tables, a: array2<Byte>, i: nat, r: nat, f: Byte, ghost m: Matrix<Byte>)
    requires t.Valid() && Holds(a, m) && i < a.Length0 && r < a.Length0 && r != i
    modifies a
    ensures t.Valid() && Holds(a, m[r := GF.Combined(m[r], m[i], f)])
  {
    hide Doubling.Mul; hide Xor;
    for c := 0 to a.Length1
      invariant t.Valid()
      invariant forall q, d | 0 <= q < a.Length0 && 0 <= d < a.Length1 && (q != r || d >= c) :: a[q, d] == m[q][d]
      invariant forall d | 0 <= d < c :: a[r, d] == Xor(m[r][d], Mul(m[i][d], f))
    {
      a[r, c] := Xor(a[r, c], t.GfMul(a[i, c], f));
    }
  }

  /** The first row from i on with a nonzero entry in column i, or i when there is none. */
  method FindPivot(aug: array2<Byte>, i: nat) returns (pivot: nat)
    requires i < aug.Length0 && i < aug.Length1
    ensures i <= pivot < aug.Length0 && forall r | i <= r < pivot :: aug[r, i] == ZERO
    ensures aug[pivot, i] == ZERO ==> forall r | i <= r < aug.Length0 :: aug[r, i] == ZERO
  {
    pivot := i;
    var j := i;
    while j < aug.Length0
      invariant i <= j <= aug.Length0 && pivot == i
      invariant forall r | i <= r < j :: aug[r, i] == ZERO
    {
      if aug[j, i] != ZERO { return j; }
      j := j + 1;
    }
  }

  /** Clears column i outside row i, whose entry there is one. */
  method EliminateColumn(t: Tables, aug: array2<Byte>, i: nat, n: nat, ghost mat: Matrix<Byte>, ghost m0: Matrix<Byte>)
    returns (ghost m: Matrix<Byte>)
    requires t.Valid() && aug.Length0 == n && Holds(aug, m0)
    requires i < n && GF.Reduced(mat, m0, i, n) && m0[i][i] == ONE
    modifies aug
    ensures t.Valid() && Holds(aug, m) && GF.Reduced(mat, m, i + 1, n)
  {
    hide Doubling.Mul; hide Xor; hide Field.SameSolutions; hide Field.Laws;
    BytesAreAField();
    m := m0;
    for r := 0 to n
      invariant t.Valid() && Holds(aug, m)
      invariant GF.Reduced(mat, m, i, n) && m[i][i] == ONE
      invariant forall q | 0 <= q < r && q != i :: m[q][i] == ZERO
    {
      if r != i && aug[r, i] != ZERO {
        var factor := aug[r, i];
        Eliminate(t, aug, i, r, factor, m);
        GF.CombineKeepsReduced(mat, m, i, r, factor, n);
        GF.MulOne(factor);
        XorSelf(factor);
        m := m[r := GF.Combined(m[r], m[i], factor)];
      }
    }
  }

  /** A two-sided inverse, or a nonzero vector that the matrix sends to zero. */
  method InvertMatrix(t: Tables, mat: Matrix<Byte>, n: nat) returns (res: Option<Matrix<Byte>>)
    requires t.Valid() && GF.Shape(mat, n, n)
    ensures t.Valid()
    ensures res.Some? ==> GF.Inverses(mat, res.value, n)
    ensures res.None? ==> exists x: Vector<Byte> :: |x| == n && GF.InKernel(mat, x)
  {
    hide Doubling.Mul; hide Xor; hide Field.InKernel; hide Field.Inverses; hide Field.SameSolutions; hide Field.Laws;
    BytesAreAField();
    var aug := new Byte[n, 2 * n]((r, c) requires 0 <= r < n && 0 <= c < 2 * n =>
      if c < n then mat[r][c] else if c == n + r then ONE else ZERO);
    ghost var m := GF.Augmented(mat, n);
    GF.SameSolutionsReflexive(m, n, 2 * n);
    for i := 0 to n
      invariant t.Valid() && Holds(aug, m) && fresh(aug)
      invariant GF.Reduced(mat, m, i, n)
    {
      var pivot := FindPivot(aug, i);
      if aug[pivot, i] == ZERO {
        GF.NoPivotGivesKernel(mat, m, i, n);
        assert GF.InKernel(mat, GF.KernelVector(m, i, n));
        return None;
      }
      SwapRows(aug, i, pivot, m);
      GF.SwapKeepsReduced(mat, m, i, pivot, n);
      m := m[i := m[pivot]][pivot := m[i]];

      var inv := t.GfDiv(ONE, aug[i, i]);
      GF.MulCommutes(inv, m[i][i]);
      ScaleRow(t, aug, i, inv, m);
      GF.ScaleKeepsReduced(mat, m, i, inv, n);
      m := m[i := GF.Scaled(m[i], inv)];

      m := EliminateColumn(t, aug, i, n, mat, m);
    }
    GF.ReducedIsInverse(mat, m, n);
    var inverse := seq(n, r requires 0 <= r < n reads aug => seq(n, c requires 0 <= c < n reads aug => aug[r, n + c]));
    assert forall r | 0 <= r < n :: inverse[r] == m[r][n..];
    assert inverse == GF.RightHalf(m, n);
    return Some(inverse);
  }
}
