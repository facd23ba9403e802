/** Vectors and matrices over a field of characteristic two: dot products, row operations, inversion. */
module LinearAlgebra {

  type Vector<T> = seq<T>
  type Matrix<T> = seq<Vector<T>>

  /** The operations of a field; in characteristic two addition is its own inverse. */
  datatype Field<!T(!new)> = Field(zero: T, one: T, add: (T, T) -> T, mul: (T, T) -> T) {

    ghost predicate Laws() {
      && (forall a, b, c :: AddLaws(a, b, c))
      && (forall a, b, c :: MulLaws(a, b, c))
      && (forall a | a != zero :: Invertible(a))
      && zero != one
    }

    ghost predicate AddLaws(a: T, b: T, c: T) {
      && add(a, zero) == a && add(a, a) == zero
      && add(a, b) == add(b, a)
      && add(add(a, b), c) == add(a, add(b, c))
    }

    ghost predicate MulLaws(a: T, b: T, c: T) {
      && mul(a, zero) == zero && mul(a, one) == a
      && mul(a, b) == mul(b, a)
      && mul(mul(a, b), c) == mul(a, mul(b, c))
      && mul(add(a, b), c) == add(mul(a, c), mul(b, c))
    }

    ghost predicate Invertible(a: T) { exists b :: mul(a, b) == one }

    lemma AddZero(a: T)
      requires Laws()
      ensures add(a, zero) == a == add(zero, a)
    {
      assert AddLaws(a, zero, a);
    }

    lemma AddSelf(a: T)
      requires Laws()
      ensures add(a, a) == zero
    {
      assert AddLaws(a, a, a);
    }

    lemma AddCommutes(a: T, b: T)
      requires Laws()
      ensures add(a, b) == add(b, a)
    {
      assert AddLaws(a, b, a);
    }

    lemma AddAssociates(a: T, b: T, c: T)
      requires Laws()
      ensures add(add(a, b), c) == add(a, add(b, c))
    {
      assert AddLaws(a, b, c);
    }

    lemma AddExchanges(a: T, b: T, c: T, d: T)
      requires Laws()
      ensures add(add(a, b), add(c, d)) == add(add(a, c), add(b, d))
    {
      hide Laws;
      AddAssociates(add(a, b), c, d);
      AddAssociates(a, b, c);
      AddCommutes(b, c);
      AddAssociates(a, c, b);
      AddAssociates(add(a, c), b, d);
    }

    lemma AddCancels(a: T, b: T)
      requires Laws() && add(a, b) == zero
      ensures a == b
    {
      hide Laws;
      AddAssociates(a, b, b);
      AddSelf(b);
      AddZero(a);
      AddZero(b);
    }

    lemma ZeroIsNotOne()
      requires Laws()
      ensures zero != one
    {}

    lemma MulZero(a: T)
      requires Laws()
      ensures mul(a, zero) == zero == mul(zero, a)
    {
      assert MulLaws(a, zero, a);
    }

    lemma MulOne(a: T)
      requires Laws()
      ensures mul(a, one) == a == mul(one, a)
    {
      assert MulLaws(a, one, a);
    }

    lemma MulCommutes(a: T, b: T)
      requires Laws()
      ensures mul(a, b) == mul(b, a)
    {
      assert MulLaws(a, b, a);
    }

    lemma MulAssociates(a: T, b: T, c: T)
      requires Laws()
      ensures mul(mul(a, b), c) == mul(a, mul(b, c))
    {
      assert MulLaws(a, b, c);
    }

    lemma MulDistributes(a: T, b: T, c: T)
      requires Laws()
      ensures mul(add(a, b), c) == add(mul(a, c), mul(b, c))
      ensures mul(c, add(a, b)) == add(mul(c, a), mul(c, b))
    {
      assert MulLaws(a, b, c);
      MulCommutes(c, a);
      MulCommutes(c, b);
      MulCommutes(c, add(a, b));
    }

    lemma MulNonZero(a: T, b: T)
      requires Laws() && a != zero && b != zero
      ensures mul(a, b) != zero
    {
      var i := Inverse(a);
      hide Laws;
      MulAssociates(i, a, b);
      MulCommutes(i, a);
      MulOne(b);
      MulZero(i);
    }

    lemma Inverse(a: T) returns (i: T)
      requires Laws() && a != zero
      ensures mul(a, i) == one
    {
      assert Invertible(a);
      i :| mul(a, i) == one;
    }

    /** The product of the first k entries. */
    ghost function Dot(a: Vector<T>, v: Vector<T>, k: nat): T
      requires k <= |a| && k <= |v|
    {
      if k == 0 then zero else add(Dot(a, v, k - 1), mul(a[k - 1], v[k - 1]))
    }

    ghost function Zeros(n: nat): (z: Vector<T>)
      ensures |z| == n
    {
      seq(n, _ => zero)
    }

    ghost function Unit(n: nat, i: nat): (u: Vector<T>)
      ensures |u| == n
    {
      seq(n, j => if j == i then one else zero)
    }

    ghost function Scaled(a: Vector<T>, f: T): (r: Vector<T>)
      ensures |r| == |a|
    {
      seq(|a|, c requires 0 <= c < |a| => mul(a[c], f))
    }

    /** Row a plus f times row b. */
    ghost function Combined(a: Vector<T>, b: Vector<T>, f: T): (r: Vector<T>)
      requires |a| == |b|
      ensures |r| == |a|
    {
      seq(|a|, c requires 0 <= c < |a| => add(a[c], mul(b[c], f)))
    }

    ghost predicate Shape(m: Matrix<T>, rows: nat, columns: nat) {
      |m| == rows && forall r | 0 <= r < rows :: |m[r]| == columns
    }

    lemma {:induction false} DotScaled(a: Vector<T>, v: Vector<T>, f: T, k: nat)
      requires Laws() && k <= |a| && k <= |v|
      ensures Dot(Scaled(a, f), v, k) == mul(f, Dot(a, v, k))
    {
      hide Laws;
      if k == 0 {
        MulZero(f);
      } else {
        DotScaled(a, v, f, k - 1);
        MulCommutes(a[k - 1], f);
        MulAssociates(f, a[k - 1], v[k - 1]);
        MulDistributes(Dot(a, v, k - 1), mul(a[k - 1], v[k - 1]), f);
      }
    }

    lemma {:induction false} DotCombined(a: Vector<T>, b: Vector<T>, f: T, v: Vector<T>, k: nat)
      requires Laws() && |a| == |b| && k <= |a| && k <= |v|
      ensures Dot(Combined(a, b, f), v, k) == add(Dot(a, v, k), mul(f, Dot(b, v, k)))
    {
      hide Laws;
      if k == 0 {
        MulZero(f);
        AddZero(zero);
      } else {
        DotCombined(a, b, f, v, k - 1);
        var x, y, z := a[k - 1], b[k - 1], v[k - 1];
        MulDistributes(x, mul(y, f), z);
        MulCommutes(y, f);
        MulAssociates(f, y, z);
        MulDistributes(Dot(b, v, k - 1), mul(y, z), f);
        AddExchanges(Dot(a, v, k - 1), mul(f, Dot(b, v, k - 1)), mul(x, z), mul(f, mul(y, z)));
      }
    }

    lemma SumIsZero(x: Vector<T>, y: Vector<T>)
      requires Laws() && |x| == |y| && Combined(x, y, one) == Zeros(|x|)
      ensures x == y
    {
      hide Laws;
      forall i | 0 <= i < |x| ensures x[i] == y[i] {
        assert Combined(x, y, one)[i] == Zeros(|x|)[i];
        MulOne(y[i]);
        AddCancels(x[i], y[i]);
      }
    }

    /** Positions from j to k where either side is zero contribute nothing. */
    lemma {:induction false} DotSkip(a: Vector<T>, v: Vector<T>, j: nat, k: nat)
      requires Laws() && j <= k <= |a| && k <= |v|
      requires forall i | j <= i < k :: a[i] == zero || v[i] == zero
      ensures Dot(a, v, k) == Dot(a, v, j)
    {
      hide Laws;
      if j < k {
        DotSkip(a, v, j, k - 1);
        MulZero(a[k - 1]);
        MulZero(v[k - 1]);
        AddZero(Dot(a, v, j));
      }
    }

    lemma DotUnit(n: nat, i: nat, v: Vector<T>)
      requires Laws() && i < n <= |v|
      ensures Dot(Unit(n, i), v, n) == v[i]
    {
      hide Laws;
      DotSkip(Unit(n, i), v, i + 1, n);
      DotSkip(Unit(n, i), v, 0, i);
      MulOne(v[i]);
      AddZero(v[i]);
    }

    lemma {:induction false} DotSymmetric(a: Vector<T>, v: Vector<T>, k: nat)
      requires Laws() && k <= |a| && k <= |v|
      ensures Dot(a, v, k) == Dot(v, a, k)
    {
      hide Laws;
      if k > 0 {
        DotSymmetric(a, v, k - 1);
        MulCommutes(a[k - 1], v[k - 1]);
      }
    }

    /** The first k entries of longer vectors. */
    lemma {:induction false} DotPrefix(a: Vector<T>, b: Vector<T>, x: Vector<T>, y: Vector<T>, k: nat)
      requires k <= |a| && k <= |x|
      ensures Dot(a + b, x + y, k) == Dot(a, x, k)
    {
      if k > 0 { DotPrefix(a, b, x, y, k - 1); }
    }

    lemma {:induction false} DotConcat(a: Vector<T>, b: Vector<T>, x: Vector<T>, y: Vector<T>, k: nat)
      requires Laws() && |a| == |x| && k <= |b| && k <= |y|
      ensures Dot(a + b, x + y, |a| + k) == add(Dot(a, x, |a|), Dot(b, y, k))
    {
      hide Laws;
      if k == 0 {
        DotPrefix(a, b, x, y, |a|);
        AddZero(Dot(a, x, |a|));
      } else {
        DotConcat(a, b, x, y, k - 1);
        AddAssociates(Dot(a, x, |a|), Dot(b, y, k - 1), mul(b[k - 1], y[k - 1]));
      }
    }

    /** m times x. */
    ghost function Apply(m: Matrix<T>, x: Vector<T>): (y: Vector<T>)
      requires Shape(m, |m|, |x|)
      ensures |y| == |m|
    {
      seq(|m|, r requires 0 <= r < |m| => Dot(m[r], x, |x|))
    }

    /** Every row of m is orthogonal to v. */
    ghost predicate Solves(m: Matrix<T>, v: Vector<T>)
      requires Shape(m, |m|, |v|)
    {
      forall r | 0 <= r < |m| :: Dot(m[r], v, |v|) == zero
    }

    ghost predicate SameSolutions(a: Matrix<T>, b: Matrix<T>, rows: nat, columns: nat)
      requires Shape(a, rows, columns) && Shape(b, rows, columns)
    {
      forall v: Vector<T> | |v| == columns :: Solves(a, v) <==> Solves(b, v)
    }

    // The three row operations keep the solutions.

    lemma SwapKeepsSolutions(m: Matrix<T>, i: nat, j: nat, rows: nat, columns: nat)
      requires Shape(m, rows, columns) && i < rows && j < rows
      ensures Shape(m[i := m[j]][j := m[i]], rows, columns)
      ensures SameSolutions(m, m[i := m[j]][j := m[i]], rows, columns)
    {
      hide Dot;
      var s := m[i := m[j]][j := m[i]];
      forall v: Vector<T> | |v| == columns ensures Solves(m, v) <==> Solves(s, v) {
        assert forall r | 0 <= r < rows :: s[r] == m[if r == j then i else if r == i then j else r];
        assert forall r | 0 <= r < rows :: m[r] == s[if r == j then i else if r == i then j else r];
      }
    }

    lemma OneRowDiffers(a: Matrix<T>, b: Matrix<T>, i: nat, v: Vector<T>)
      requires |a| == |b| && i < |a| && Shape(a, |a|, |v|) && Shape(b, |b|, |v|)
      requires forall r | 0 <= r < |a| && r != i :: a[r] == b[r]
      requires Dot(a[i], v, |v|) == zero <==> Dot(b[i], v, |v|) == zero
      ensures Solves(a, v) <==> Solves(b, v)
    {
      hide Dot;
      forall r | 0 <= r < |a| ensures Dot(a[r], v, |v|) == zero <==> Dot(b[r], v, |v|) == zero {}
    }

    lemma ScaleKeepsSolutions(m: Matrix<T>, i: nat, f: T, rows: nat, columns: nat)
      requires Laws() && Shape(m, rows, columns) && i < rows && f != zero
      ensures Shape(m[i := Scaled(m[i], f)], rows, columns)
      ensures SameSolutions(m, m[i := Scaled(m[i], f)], rows, columns)
    {
      hide Dot; hide Laws;
      var s := m[i := Scaled(m[i], f)];
      forall v: Vector<T> | |v| == columns ensures Solves(m, v) <==> Solves(s, v) {
        DotScaled(m[i], v, f, columns);
        MulZero(f);
        if Dot(m[i], v, columns) != zero { MulNonZero(f, Dot(m[i], v, columns)); }
        OneRowDiffers(m, s, i, v);
      }
    }

    lemma CombineKeepsSolutions(m: Matrix<T>, i: nat, r: nat, f: T, rows: nat, columns: nat)
      requires Laws() && Shape(m, rows, columns) && i < rows && r < rows && r != i
      ensures Shape(m[r := Combined(m[r], m[i], f)], rows, columns)
      ensures SameSolutions(m, m[r := Combined(m[r], m[i], f)], rows, columns)
    {
      hide Dot; hide Laws;
      var s := m[r := Combined(m[r], m[i], f)];
      forall v: Vector<T> | |v| == columns ensures Solves(m, v) <==> Solves(s, v) {
        DotCombined(m[r], m[i], f, v, columns);
        MulZero(f);
        AddZero(Dot(m[r], v, columns));
        if Solves(m, v) {
          assert Dot(m[i], v, columns) == zero && Dot(m[r], v, columns) == zero;
          OneRowDiffers(m, s, r, v);
        } else if Solves(s, v) {
          assert s[i] == m[i] && Dot(s[i], v, columns) == zero && Dot(s[r], v, columns) == zero;
          OneRowDiffers(m, s, r, v);
        }
      }
    }

    // Inversion.

    ghost function Augmented(mat: Matrix<T>, n: nat): (m: Matrix<T>)
      requires Shape(mat, n, n)
      ensures Shape(m, n, 2 * n)
    {
      seq(n, r requires 0 <= r < n => mat[r] + Unit(n, r))
    }

    /** The first k columns are those of the identity. */
    ghost predicate UnitColumns(m: Matrix<T>, k: nat, n: nat)
      requires Shape(m, n, 2 * n) && k <= n
    {
      forall r, c | 0 <= r < n && 0 <= c < k :: m[r][c] == if r == c then one else zero
    }

    ghost predicate Inverses(mat: Matrix<T>, inv: Matrix<T>, n: nat) {
      && Shape(mat, n, n) && Shape(inv, n, n)
      && (forall x: Vector<T> | |x| == n :: Apply(inv, Apply(mat, x)) == x)
      && (forall y: Vector<T> | |y| == n :: Apply(mat, Apply(inv, y)) == y)
    }

    ghost predicate InKernel(mat: Matrix<T>, x: Vector<T>)
    {
      Shape(mat, |mat|, |x|) && x != Zeros(|x|) && Apply(mat, x) == Zeros(|mat|)
    }

    /** Solutions of [mat | I] are the pairs (x, mat x). */
    lemma AugmentedSolutions(mat: Matrix<T>, n: nat, x: Vector<T>, y: Vector<T>)
      requires Laws() && Shape(mat, n, n) && |x| == n && |y| == n
      ensures Solves(Augmented(mat, n), x + y) <==> Apply(mat, x) == y
    {
      hide Laws; hide Dot;
      forall r | 0 <= r < n
        ensures Dot(Augmented(mat, n)[r], x + y, 2 * n) == zero <==> Apply(mat, x)[r] == y[r]
      {
        DotConcat(mat[r], Unit(n, r), x, y, n);
        DotUnit(n, r, y);
        AddSelf(y[r]);
        if add(Dot(mat[r], x, n), y[r]) == zero { AddCancels(Dot(mat[r], x, n), y[r]); }
      }
    }

    ghost function RightHalf(m: Matrix<T>, n: nat): (h: Matrix<T>)
      requires Shape(m, n, 2 * n)
      ensures Shape(h, n, n)
    {
      seq(n, r requires 0 <= r < n => m[r][n..])
    }

    /** Solutions of [I | inv] are the pairs (inv y, y). */
    lemma ReducedSolutions(m: Matrix<T>, n: nat, x: Vector<T>, y: Vector<T>)
      requires Laws() && Shape(m, n, 2 * n) && UnitColumns(m, n, n) && |x| == n && |y| == n
      ensures Solves(m, x + y) <==> Apply(RightHalf(m, n), y) == x
    {
      hide Laws; hide Dot;
      forall r | 0 <= r < n
        ensures Dot(m[r], x + y, 2 * n) == zero <==> Apply(RightHalf(m, n), y)[r] == x[r]
      {
        assert m[r] == Unit(n, r) + m[r][n..];
        DotConcat(Unit(n, r), m[r][n..], x, y, n);
        DotUnit(n, r, x);
        AddSelf(x[r]);
        if add(x[r], Dot(m[r][n..], y, n)) == zero { AddCancels(x[r], Dot(m[r][n..], y, n)); }
      }
    }

    lemma ReducedIsInverse(mat: Matrix<T>, m: Matrix<T>, n: nat)
      requires Laws() && Shape(mat, n, n) && Shape(m, n, 2 * n) && UnitColumns(m, n, n)
      requires SameSolutions(Augmented(mat, n), m, n, 2 * n)
      ensures Inverses(mat, RightHalf(m, n), n)
    {
      hide Laws; hide Dot;
      var inv := RightHalf(m, n);
      forall x: Vector<T> | |x| == n ensures Apply(inv, Apply(mat, x)) == x {
        AugmentedSolutions(mat, n, x, Apply(mat, x));
        ReducedSolutions(m, n, x, Apply(mat, x));
      }
      forall y: Vector<T> | |y| == n ensures Apply(mat, Apply(inv, y)) == y {
        AugmentedSolutions(mat, n, Apply(inv, y), y);
        ReducedSolutions(m, n, Apply(inv, y), y);
      }
    }

    ghost function KernelVector(m: Matrix<T>, i: nat, n: nat): (x: Vector<T>)
      requires Shape(m, n, 2 * n) && i < n
      ensures |x| == n
    {
      seq(n, c requires 0 <= c < n => if c < i then m[c][i] else if c == i then one else zero)
    }

    lemma KernelVectorSolves(m: Matrix<T>, i: nat, n: nat)
      requires Laws() && Shape(m, n, 2 * n) && i < n && UnitColumns(m, i, n)
      requires forall r | i <= r < n :: m[r][i] == zero
      ensures Solves(m, KernelVector(m, i, n) + Zeros(n))
    {
      hide Laws; hide Dot; hide UnitColumns;
      var x := KernelVector(m, i, n);
      forall r | 0 <= r < n ensures Dot(m[r], x + Zeros(n), 2 * n) == zero { KernelRow(m, i, n, r, x); }
    }

    /** Without a pivot in column i the entries above it give a vector the matrix sends to zero. */
    lemma NoPivotGivesKernel(mat: Matrix<T>, m: Matrix<T>, i: nat, n: nat)
      requires Laws() && Shape(mat, n, n) && Shape(m, n, 2 * n) && i < n && UnitColumns(m, i, n)
      requires SameSolutions(Augmented(mat, n), m, n, 2 * n)
      requires forall r | i <= r < n :: m[r][i] == zero
      ensures InKernel(mat, KernelVector(m, i, n))
    {
      hide Laws; hide Solves; hide Apply; hide Augmented; hide UnitColumns;
      var x := KernelVector(m, i, n);
      KernelVectorSolves(m, i, n);
      AugmentedSolutions(mat, n, x, Zeros(n));
      ZeroIsNotOne();
      assert x[i] == one != Zeros(n)[i];
    }

    lemma KernelRow(m: Matrix<T>, i: nat, n: nat, r: nat, x: Vector<T>)
      requires Laws() && Shape(m, n, 2 * n) && i < n && r < n && UnitColumns(m, i, n)
      requires forall r | i <= r < n :: m[r][i] == zero
      requires x == KernelVector(m, i, n)
      ensures Dot(m[r], x + Zeros(n), 2 * n) == zero
    {
      hide Laws;
      var v := x + Zeros(n);
      DotSkip(m[r], v, i + 1, 2 * n);
      MulOne(m[r][i]);
      if r < i {
        DotSkip(m[r], v, r + 1, i);
        DotSkip(m[r], v, 0, r);
        MulOne(m[r][i]);
        AddZero(m[r][i]);
        AddSelf(m[r][i]);
      } else {
        DotSkip(m[r], v, 0, i);
        AddZero(zero);
      }
    }

    /** What processing columns up to k has established about the augmented array. */
    ghost predicate Reduced(mat: Matrix<T>, m: Matrix<T>, k: nat, n: nat)
    {
      && k <= n && Shape(mat, n, n) && Shape(m, n, 2 * n)
      && SameSolutions(Augmented(mat, n), m, n, 2 * n)
      && UnitColumns(m, k, n)
    }

    lemma SwapKeepsReduced(mat: Matrix<T>, m: Matrix<T>, i: nat, pivot: nat, n: nat)
      requires Laws() && Reduced(mat, m, i, n) && i <= pivot < n
      ensures Reduced(mat, m[i := m[pivot]][pivot := m[i]], i, n)
    {
      hide Laws; hide Solves;
      SwapKeepsSolutions(m, i, pivot, n, 2 * n);
    }

    lemma ScaleKeepsReduced(mat: Matrix<T>, m: Matrix<T>, i: nat, inv: T, n: nat)
      requires Laws() && Reduced(mat, m, i, n) && i < n && inv != zero
      ensures Reduced(mat, m[i := Scaled(m[i], inv)], i, n)
    {
      hide Solves; hide Laws;
      ScaleKeepsSolutions(m, i, inv, n, 2 * n);
      MulZero(inv);
    }

    lemma CombineKeepsReduced(mat: Matrix<T>, m: Matrix<T>, i: nat, r: nat, factor: T, n: nat)
      requires Laws() && Reduced(mat, m, i, n) && i < n && r < n && r != i
      ensures Reduced(mat, m[r := Combined(m[r], m[i], factor)], i, n)
    {
      hide Solves; hide Laws;
      CombineKeepsSolutions(m, i, r, factor, n, 2 * n);
      forall c | 0 <= c < i ensures Combined(m[r], m[i], factor)[c] == m[r][c] {
        MulZero(factor);
        AddZero(m[r][c]);
      }
    }

    lemma SameSolutionsReflexive(m: Matrix<T>, rows: nat, columns: nat)
      requires Shape(m, rows, columns)
      ensures SameSolutions(m, m, rows, columns)
    {}

    lemma ApplyToZeros(m: Matrix<T>, n: nat)
      requires Laws() && Shape(m, n, n)
      ensures Apply(m, Zeros(n)) == Zeros(n)
    {
      forall r | 0 <= r < n ensures Dot(m[r], Zeros(n), n) == zero { DotSkip(m[r], Zeros(n), 0, n); }
    }

    /** The two outcomes of InvertMatrix exclude each other. */
    lemma KernelExcludesInverse(mat: Matrix<T>, inv: Matrix<T>, x: Vector<T>, n: nat)
      requires Laws() && Inverses(mat, inv, n) && |x| == n
      ensures !InKernel(mat, x)
    {
      hide Laws; hide Apply;
      ApplyToZeros(inv, n);
      assert Apply(inv, Apply(mat, x)) == x;
    }

    ghost function MatrixColumn(m: Matrix<T>, j: nat, n: nat): (v: Vector<T>)
      requires Shape(m, n, n) && j < n
      ensures |v| == n
    {
      seq(n, i requires 0 <= i < n => m[i][j])
    }

    /** Row by column. */
    ghost function Product(a: Matrix<T>, b: Matrix<T>, n: nat): (p: Matrix<T>)
      requires Shape(a, n, n) && Shape(b, n, n)
      ensures Shape(p, n, n)
    {
      seq(n, i requires 0 <= i < n => seq(n, j requires 0 <= j < n => Dot(a[i], MatrixColumn(b, j, n), n)))
    }

    ghost function Identity(n: nat): (p: Matrix<T>)
      ensures Shape(p, n, n)
    {
      seq(n, i requires 0 <= i < n => Unit(n, i))
    }

    lemma ApplyToUnit(m: Matrix<T>, j: nat, n: nat)
      requires Laws() && Shape(m, n, n) && j < n
      ensures Apply(m, Unit(n, j)) == MatrixColumn(m, j, n)
    {
      hide Laws; hide Dot; hide Unit;
      forall i | 0 <= i < n ensures Apply(m, Unit(n, j))[i] == m[i][j] {
        DotSymmetric(m[i], Unit(n, j), n);
        DotUnit(n, j, m[i]);
      }
    }

    lemma ProductEntry(a: Matrix<T>, b: Matrix<T>, n: nat, i: nat, j: nat)
      requires Shape(a, n, n) && Shape(b, n, n) && i < n && j < n
      ensures Product(a, b, n)[i][j] == Apply(a, MatrixColumn(b, j, n))[i]
    {
      hide Dot;
    }

    lemma ProductIsIdentity(a: Matrix<T>, b: Matrix<T>, n: nat)
      requires Laws() && Shape(a, n, n) && Shape(b, n, n)
      requires forall x: Vector<T> | |x| == n :: Apply(a, Apply(b, x)) == x
      ensures Product(a, b, n) == Identity(n)
    {
      hide Laws; hide Product; hide Apply; hide Unit; hide MatrixColumn;
      forall i | 0 <= i < n ensures Product(a, b, n)[i] == Unit(n, i) {
        forall j | 0 <= j < n ensures Product(a, b, n)[i][j] == Unit(n, i)[j] {
          ApplyToUnit(b, j, n);
          ProductEntry(a, b, n, i, j);
          UnitSymmetric(n, i, j);
        }
      }
    }

    lemma UnitSymmetric(n: nat, i: nat, j: nat)
      requires i < n && j < n
      ensures Unit(n, i)[j] == Unit(n, j)[i]
    {}

    /** Both products of a matrix and its inverse are the identity, entry by entry. */
    lemma InverseProducts(mat: Matrix<T>, inv: Matrix<T>, n: nat)
      requires Laws() && Inverses(mat, inv, n)
      ensures Product(inv, mat, n) == Identity(n) == Product(mat, inv, n)
    {
      hide Product; hide Apply; hide Identity;
      ProductIsIdentity(inv, mat, n);
      ProductIsIdentity(mat, inv, n);
    }

    // Powers.

    ghost function Power(a: T, n: nat): T {
      if n == 0 then one else mul(Power(a, n - 1), a)
    }

    lemma {:induction false} PowerOfOne(n: nat)
      requires Laws()
      ensures Power(one, n) == one
    {
      hide Laws;
      if n > 0 { PowerOfOne(n - 1); MulOne(one); }
    }

    lemma SmallPowers(a: T)
      requires Laws()
      ensures Power(a, 0) == one && Power(a, 1) == a && Power(a, 2) == mul(a, a)
    {
      hide Laws;
      MulOne(a);
    }

    lemma {:induction false} PowerNonZero(a: T, n: nat)
      requires Laws() && a != zero
      ensures Power(a, n) != zero
    {
      hide Laws;
      ZeroIsNotOne();
      if n > 0 {
        PowerNonZero(a, n - 1);
        MulNonZero(Power(a, n - 1), a);
      }
    }

    // Linear equations in one, two and three unknowns.

    lemma ScaleEquation(f: T, a: T, u: T, b: T, v: T)
      requires Laws() && add(mul(a, u), mul(b, v)) == zero
      ensures add(mul(mul(a, f), u), mul(mul(b, f), v)) == zero
    {
      hide Laws;
      MulDistributes(mul(a, u), mul(b, v), f);
      MulZero(f);
      MulCommutes(a, f); MulAssociates(f, a, u);
      MulCommutes(b, f); MulAssociates(f, b, v);
    }

    lemma SubtractEquations(p: T, q: T, u: T, w: T)
      requires Laws() && add(mul(p, u), w) == zero && add(mul(q, u), w) == zero && p != q
      ensures u == zero
    {
      hide Laws;
      AddExchanges(mul(p, u), w, mul(q, u), w);
      AddSelf(w); AddZero(zero); AddZero(add(mul(p, u), mul(q, u)));
      MulDistributes(p, q, u);
      if add(p, q) == zero { AddCancels(p, q); }
      if u != zero { MulNonZero(add(p, q), u); }
    }

    lemma TwoUnknowns(a: T, b: T, c: T, d: T, u: T, v: T)
      requires Laws() && add(mul(a, u), mul(b, v)) == zero && add(mul(c, u), mul(d, v)) == zero
      requires mul(a, d) != mul(b, c)
      ensures u == zero && v == zero
    {
      hide Laws;
      ScaleEquation(d, a, u, b, v);
      ScaleEquation(b, c, u, d, v);
      MulCommutes(b, d); MulCommutes(b, c);
      SubtractEquations(mul(a, d), mul(b, c), u, mul(mul(b, d), v));
      AddCommutes(mul(a, u), mul(b, v)); AddCommutes(mul(c, u), mul(d, v));
      ScaleEquation(c, b, v, a, u);
      ScaleEquation(a, d, v, c, u);
      MulCommutes(a, d); MulCommutes(a, c);
      SubtractEquations(mul(b, c), mul(a, d), v, mul(mul(a, c), u));
    }

    lemma SquareOfSum(a: T, b: T)
      requires Laws()
      ensures add(mul(a, a), mul(b, b)) == mul(add(a, b), add(a, b))
    {
      hide Laws;
      var s := add(a, b);
      MulDistributes(a, b, s);
      MulDistributes(a, b, a);
      MulDistributes(a, b, b);
      MulCommutes(a, b);
      AddCommutes(mul(a, b), mul(b, b));
      AddExchanges(mul(a, a), mul(a, b), mul(b, b), mul(a, b));
      AddSelf(mul(a, b));
      AddZero(add(mul(a, a), mul(b, b)));
    }

    /** u + a v + a^2 w, a quadratic. */
    ghost function Quadratic(a: T, u: T, v: T, w: T): T {
      add(add(u, mul(a, v)), mul(mul(a, a), w))
    }

    /** Two distinct roots fix the middle coefficient. */
    lemma TwoRoots(a: T, b: T, u: T, v: T, w: T)
      requires Laws() && Quadratic(a, u, v, w) == zero && Quadratic(b, u, v, w) == zero && a != b
      ensures add(v, mul(add(a, b), w)) == zero
    {
      hide Laws;
      var s := add(a, b);
      var av, bv, aw, bw := mul(a, v), mul(b, v), mul(mul(a, a), w), mul(mul(b, b), w);
      AddExchanges(add(u, av), aw, add(u, bv), bw);
      AddExchanges(u, av, u, bv);
      AddSelf(u); AddZero(add(av, bv)); AddZero(zero);
      MulDistributes(a, b, v);
      MulDistributes(mul(a, a), mul(b, b), w);
      SquareOfSum(a, b);
      MulAssociates(s, s, w);
      MulDistributes(v, mul(s, w), s);
      if s == zero { AddCancels(a, b); }
      if add(v, mul(s, w)) != zero { MulNonZero(s, add(v, mul(s, w))); }
    }

    lemma ThreeRoots(a: T, b: T, c: T, u: T, v: T, w: T)
      requires Laws() && Quadratic(a, u, v, w) == zero && Quadratic(b, u, v, w) == zero && Quadratic(c, u, v, w) == zero
      requires a != b && a != c && b != c
      ensures u == zero && v == zero && w == zero
    {
      hide Laws;
      TwoRoots(a, b, u, v, w);
      TwoRoots(a, c, u, v, w);
      var s, t := add(a, b), add(a, c);
      if s == t { AddInjective(a, b, c); }
      AddCommutes(v, mul(s, w)); AddCommutes(v, mul(t, w));
      SubtractEquations(s, t, w, v);
      MulZero(s); AddZero(v);
      MulZero(a); MulZero(mul(a, a)); AddZero(u);
    }

    lemma AddInjective(a: T, b: T, c: T)
      requires Laws() && add(a, b) == add(a, c)
      ensures b == c
    {
      hide Laws;
      AddAssociates(a, a, b); AddAssociates(a, a, c);
      AddSelf(a); AddZero(b); AddZero(c);
    }

    lemma SquaresDiffer(a: T, b: T)
      requires Laws() && a != b
      ensures mul(a, a) != mul(b, b)
    {
      hide Laws;
      if mul(a, a) == mul(b, b) {
        SquareOfSum(a, b);
        AddSelf(mul(a, a));
        if add(a, b) == zero { AddCancels(a, b); }
        MulNonZero(add(a, b), add(a, b));
      }
    }

    lemma CrossProductsDiffer(a: T, b: T)
      requires Laws() && a != b && a != zero && b != zero
      ensures mul(a, mul(b, b)) != mul(mul(a, a), b)
    {
      hide Laws;
      MulAssociates(a, b, b);
      MulAssociates(a, a, b); MulCommutes(a, mul(a, b));
      MulDistributes(b, a, mul(a, b));
      MulNonZero(a, b);
      if add(b, a) == zero { AddCancels(b, a); }
      MulNonZero(mul(a, b), add(b, a));
      AddSelf(mul(mul(a, b), b));
    }

    // Vectors with few nonzero entries.

    lemma DotOne(row: Vector<T>, x: Vector<T>, c: nat, K: nat)
      requires Laws() && |row| == K && |x| == K && c < K
      requires forall i | 0 <= i < K && i != c :: x[i] == zero
      ensures Dot(row, x, K) == mul(row[c], x[c])
    {
      hide Laws;
      DotSkip(row, x, c + 1, K);
      DotSkip(row, x, 0, c);
      AddZero(mul(row[c], x[c]));
    }

    lemma DotTwo(row: Vector<T>, x: Vector<T>, c: nat, d: nat, K: nat)
      requires Laws() && |row| == K && |x| == K && c < d < K
      requires forall i | 0 <= i < K && i != c && i != d :: x[i] == zero
      ensures Dot(row, x, K) == add(mul(row[c], x[c]), mul(row[d], x[d]))
    {
      hide Laws;
      DotSkip(row, x, d + 1, K);
      DotSkip(row, x, c + 1, d);
      DotSkip(row, x, 0, c);
      AddZero(mul(row[c], x[c]));
    }

    lemma DotThree(row: Vector<T>, x: Vector<T>, K: nat)
      requires Laws() && |row| == K && |x| == K && K >= 4
      requires forall i | 0 <= i < K && i != 0 && i != 1 && i != 3 :: x[i] == zero
      ensures Dot(row, x, K) == add(add(mul(row[0], x[0]), mul(row[1], x[1])), mul(row[3], x[3]))
    {
      hide Laws;
      DotSkip(row, x, 4, K);
      DotSkip(row, x, 2, 3);
      assert Dot(row, x, 1) == add(zero, mul(row[0], x[0])) by { assert Dot(row, x, 0) == zero; }
      assert Dot(row, x, 2) == add(Dot(row, x, 1), mul(row[1], x[1]));
      AddZero(mul(row[0], x[0]));
    }

    // A cubic.

    /** abc + (ab + c^2) x + x^3 for c = a + b. */
    ghost function Cubic(a: T, b: T, x: T): T {
      var c := add(a, b);
      add(add(mul(mul(a, b), c), mul(x, add(mul(a, b), mul(c, c)))), mul(mul(x, x), x))
    }

    /** It has the root a: with c = a + b the sum is a (a (c + b + a)). */
    lemma CubicFirstRoot(a: T, b: T)
      requires Laws()
      ensures Cubic(a, b, a) == zero
    {
      hide Laws;
      var c := add(a, b);
      var ab := mul(a, b);
      MulAssociates(a, b, c);
      MulDistributes(mul(b, c), add(ab, mul(c, c)), a);
      MulAssociates(a, a, a);
      var inner := add(mul(b, c), add(ab, mul(c, c)));
      MulDistributes(inner, mul(a, a), a);
      // b c + (a b + c c) = (b c + c c) + a b = a c + a b = a (c + b) = a a
      AddCommutes(ab, mul(c, c));
      AddAssociates(mul(b, c), mul(c, c), ab);
      MulDistributes(b, c, c);
      AddShift(a, b);
      MulCommutes(ab, a);
      MulDistributes(c, b, a);
      AddSelf(mul(a, a));
      MulZero(a);
      AddCommutes(c, b);
    }

    lemma AddShift(a: T, b: T)
      requires Laws()
      ensures add(b, add(a, b)) == a && add(a, add(a, b)) == b
    {
      hide Laws;
      AddCommutes(a, b);
      AddAssociates(b, b, a); AddAssociates(a, a, b);
      AddSelf(a); AddSelf(b);
      AddZero(a); AddZero(b);
    }

    lemma CubicSymmetric(a: T, b: T, x: T)
      requires Laws()
      ensures Cubic(a, b, x) == Cubic(b, a, x)
    {
      hide Laws;
      AddCommutes(a, b);
      MulCommutes(a, b);
    }

    /** Its roots are a, b and a + b. */
    lemma CubicRoots(a: T, b: T)
      requires Laws()
      ensures Cubic(a, b, a) == Cubic(a, b, b) == Cubic(a, b, add(a, b)) == zero
    {
      hide Laws; hide Cubic;
      CubicFirstRoot(a, b);
      CubicFirstRoot(b, a);
      CubicSymmetric(a, b, b);
      CubicThirdRoot(a, b);
    }

    lemma CubicThirdRoot(a: T, b: T)
      requires Laws()
      ensures Cubic(a, b, add(a, b)) == zero
    {
      hide Laws;
      var c := add(a, b);
      var ab, cc := mul(a, b), mul(c, c);
      MulDistributes(ab, cc, c);
      MulCommutes(c, ab); MulCommutes(c, cc);
      MulCommutes(ab, c);
      MulDistributes(ab, cc, c);
      AddAssociates(mul(ab, c), mul(ab, c), mul(cc, c));
      AddSelf(mul(ab, c));
      AddZero(mul(cc, c));
      AddSelf(mul(cc, c));
    }
  }
}
