/** Which sets of shards determine the data: the rows of the encoder and their kernels. */
module Recoverability {
  import opened LinearAlgebra
  import opened Sets

  /** The parameters for which it does not matter which shards are lost. */
  predicate Recoverable(K: nat, M: nat) {
    K == 1 || M == 1 || (M == 2 && K <= 255) || (K <= 3 && M <= 255)
  }

  // Counting the lost data shards against the parity shards at hand.

  ghost function Below(n: nat): (s: set<nat>)
    ensures |s| == n
    ensures forall i: nat :: i in s <==> i < n
  {
    if n == 0 then {} else Below(n - 1) + {n - 1}
  }

  ghost function Lost(K: nat, shards: set<nat>): set<nat> { Below(K) - shards }

  ghost function Parity(K: nat, shards: set<nat>): set<nat> { shards - Below(K) }

  lemma AsManyLostAsParity(K: nat, shards: set<nat>)
    requires |shards| == K
    ensures |Lost(K, shards)| == |Parity(K, shards)|
  {
    var both := shards * Below(K);
    assert Below(K) == both + Lost(K, shards);
    assert shards == both + Parity(K, shards);
  }

  lemma AtMost(K: nat, M: nat, shards: set<nat>)
    requires forall i | i in shards :: i < K + M
    ensures |Lost(K, shards)| <= K && |Parity(K, shards)| <= M
  {
    hide Below;
    LargerSet(Lost(K, shards), Below(K));
    var tail := Below(K + M) - Below(K);
    assert Below(K) + tail == Below(K + M);
    LargerSet(Parity(K, shards), tail);
  }

  lemma SizeOne(s: set<nat>) returns (a: nat)
    requires |s| == 1
    ensures s == {a}
  {
    a :| a in s;
    assert |s - {a}| == 0;
  }

  lemma SizeTwo(s: set<nat>) returns (a: nat, b: nat)
    requires |s| == 2
    ensures s == {a, b} && a < b
  {
    var c :| c in s;
    var d := SizeOne(s - {c});
    a, b := if c < d then c else d, if c < d then d else c;
    assert s == {c} + {d};
  }

  lemma SizeThree(s: set<nat>) returns (a: nat, b: nat, c: nat)
    requires |s| == 3
    ensures s == {a, b, c} && a != b && a != c && b != c
  {
    a :| a in s;
    b, c := SizeTwo(s - {a});
    assert s == {a} + {b, c};
  }

  /** Replacing some data shards by as many parity shards. */
  ghost function Replaced(K: nat, lost: set<nat>, parity: set<nat>): (shards: set<nat>)
    requires (forall i | i in lost :: i < K) && (forall i | i in parity :: i >= K) && |lost| == |parity|
    ensures |shards| == K
    ensures forall i | i in shards :: (i < K && i !in lost) || i in parity
  {
    assert |Below(K) - lost| == K - |lost| by { assert (Below(K) - lost) + lost == Below(K); }
    Below(K) - lost + parity
  }

  lemma SizeOfThree(a: nat, b: nat, c: nat)
    requires a < b < c
    ensures |{a, b, c}| == 3
  {}

  ghost function Selection(selected: seq<nat>): set<nat> {
    set i | i in selected
  }

  /** A field of characteristic two and a point of it for every parity shard. */
  datatype Code<!T(!new)> = Code(f: Field<T>, point: nat -> T) {

    /**
      * The points of the first 255 parity shards are different and not zero, the 256th is zero; the first three are
      * 1, x and 1 + x, and the powers of x repeat with period 255 and no shorter one.
      */
    ghost predicate Valid() {
      f.Laws() && Points() && Generator()
    }

    ghost predicate Points() {
      && (forall i: nat, j: nat :: PointsDiffer(i, j))
      && point(255) == f.zero && point(0) == f.one && point(2) == f.add(point(0), point(1))
    }

    ghost predicate PointsDiffer(i: nat, j: nat) {
      i < 255 ==> point(i) != f.zero && (j < 255 && i != j ==> point(i) != point(j))
    }

    ghost predicate Generator() {
      (forall i: nat, j: nat :: PowersDiffer(i, j)) && f.Power(point(1), 255) == f.one
    }

    ghost predicate PowersDiffer(i: nat, j: nat) {
      i < j < 255 ==> f.Power(point(1), i) != f.Power(point(1), j)
    }

    /** The factor of data shard c in parity shard p; exponents are cast to bytes. */
    ghost function Coefficient(p: nat, c: nat): T {
      f.Power(point(p), c % 256)
    }

    ghost function EncodingRow(K: nat, index: nat): (row: Vector<T>)
      ensures |row| == K
    {
      if index < K then f.Unit(K, index) else seq(K, c requires 0 <= c => Coefficient(index - K, c))
    }

    /** Only the zero vector is orthogonal to the rows of all these shards. */
    ghost predicate Nonsingular(K: nat, shards: set<nat>) {
      forall x: Vector<T> | |x| == K && Orthogonal(K, shards, x) :: x == f.Zeros(K)
    }

    ghost predicate Orthogonal(K: nat, shards: set<nat>, x: Vector<T>)
      requires |x| == K
    {
      forall index | index in shards :: f.Dot(EncodingRow(K, index), x, K) == f.zero
    }

    ghost predicate AnyKSuffice(K: nat, M: nat) {
      forall shards: set<nat> | (forall i | i in shards :: i < K + M) && |shards| == K :: Nonsingular(K, shards)
    }

    // Selected rows.

    ghost function SelectedRows(K: nat, selected: seq<nat>): (rows: Matrix<T>)
      ensures f.Shape(rows, |selected|, K)
    {
      seq(|selected|, i requires 0 <= i < |selected| => EncodingRow(K, selected[i]))
    }

    /** A kernel vector of the selected rows is one of the set of selected shards, and conversely. */
    lemma KernelIsSingular(K: nat, selected: seq<nat>, x: Vector<T>)
      requires |selected| == K && |x| == K
      ensures f.InKernel(SelectedRows(K, selected), x) <==>
              x != f.Zeros(K) && Orthogonal(K, Selection(selected), x)
    {
      hide Field.Dot; hide EncodingRow;
      var rows := SelectedRows(K, selected);
      if f.InKernel(rows, x) {
        forall index | index in Selection(selected) ensures f.Dot(EncodingRow(K, index), x, K) == f.zero {
          var i :| 0 <= i < K && selected[i] == index;
          assert f.Apply(rows, x)[i] == f.Zeros(K)[i];
        }
      }
      if x != f.Zeros(K) && Orthogonal(K, Selection(selected), x) {
        forall i | 0 <= i < K ensures f.Apply(rows, x)[i] == f.zero { assert selected[i] in Selection(selected); }
        assert f.Apply(rows, x) == f.Zeros(K);
      }
    }

    /** The rows have an inverse exactly when the selected shards determine the data. */
    lemma InverseExcludesKernel(K: nat, selected: seq<nat>, inv: Matrix<T>)
      requires Valid() && |selected| == K && f.Inverses(SelectedRows(K, selected), inv, K)
      ensures Nonsingular(K, Selection(selected)) && f.Shape(inv, K, K)
    {
      hide Valid; hide Field.Laws; hide Field.InKernel; hide Orthogonal; hide EncodingRow;
      FieldLaws();
      forall x: Vector<T> | |x| == K && Orthogonal(K, Selection(selected), x) ensures x == f.Zeros(K) {
        KernelIsSingular(K, selected, x);
        f.KernelExcludesInverse(SelectedRows(K, selected), inv, x, K);
      }
    }

    lemma KernelExcludesData(K: nat, selected: seq<nat>)
      requires |selected| == K && exists x: Vector<T> :: |x| == K && f.InKernel(SelectedRows(K, selected), x)
      ensures !Nonsingular(K, Selection(selected))
    {
      hide Field.InKernel; hide Orthogonal; hide EncodingRow;
      var x: Vector<T> :| |x| == K && f.InKernel(SelectedRows(K, selected), x);
      KernelIsSingular(K, selected, x);
    }

    /** Shards that determine the data: two vectors with the same products are the same. */
    lemma Determined(K: nat, shards: set<nat>, x: Vector<T>, y: Vector<T>)
      requires Valid() && |x| == |y| == K && Nonsingular(K, shards)
      requires forall i | i in shards :: f.Dot(EncodingRow(K, i), x, K) == f.Dot(EncodingRow(K, i), y, K)
      ensures x == y
    {
      hide Valid; hide Field.Laws; hide Field.Dot; hide EncodingRow; hide Field.Combined; hide Field.Zeros;
      FieldLaws();
      var d := f.Combined(x, y, f.one);
      forall i | i in shards ensures f.Dot(EncodingRow(K, i), d, K) == f.zero {
        var row := EncodingRow(K, i);
        f.DotSymmetric(row, d, K);
        f.DotSymmetric(row, x, K);
        f.DotSymmetric(row, y, K);
        f.DotCombined(x, y, f.one, row, K);
        f.MulOne(f.Dot(y, row, K));
        f.AddSelf(f.Dot(x, row, K));
      }
      assert Orthogonal(K, shards, d);
      f.SumIsZero(x, y);
    }

    lemma FieldLaws()
      requires Valid()
      ensures f.Laws()
    {}

    lemma DistinctPoints(p: nat, q: nat)
      requires Valid() && p < 255
      ensures point(p) != f.zero
      ensures q < 255 && p != q ==> point(p) != point(q)
    {
      assert PointsDiffer(p, q);
    }

    lemma DistinctPowers(c: nat, d: nat)
      requires Valid() && c < d < 255
      ensures f.Power(point(1), c) != f.Power(point(1), d)
    {
      hide Field.Power;
      assert PowersDiffer(c, d);
    }

    lemma FirstPoints()
      requires Valid()
      ensures point(255) == f.zero && point(0) == f.one && point(2) == f.add(point(0), point(1))
      ensures f.Power(point(1), 255) == f.one
    {}

    lemma DataRow(K: nat, index: nat, v: Vector<T>)
      requires Valid() && index < K == |v|
      ensures f.Dot(EncodingRow(K, index), v, K) == v[index]
    {
      hide Valid; hide Field.Laws; hide Field.Dot;
      FieldLaws();
      f.DotUnit(K, index, v);
    }

    // Lost data shards.

    /** A vector orthogonal to a present data shard is zero there. */
    lemma PresentEntriesVanish(K: nat, shards: set<nat>, x: Vector<T>)
      requires Valid() && |x| == K && Orthogonal(K, shards, x)
      ensures forall i: nat | i < K && i !in Lost(K, shards) :: x[i] == f.zero
    {
      hide Field.Dot; hide Valid; hide Field.Laws;
      FieldLaws();
      forall i: nat | i < K && i !in Lost(K, shards) ensures x[i] == f.zero {
        f.DotUnit(K, i, x);
        assert f.Dot(EncodingRow(K, i), x, K) == f.zero;
      }
    }

    lemma AllDataSuffices(K: nat, shards: set<nat>)
      requires Valid() && Below(K) <= shards
      ensures Nonsingular(K, shards)
    {
      hide Valid; hide Field.Dot; hide EncodingRow; hide Orthogonal;
      forall x: Vector<T> | |x| == K && Orthogonal(K, shards, x) ensures x == f.Zeros(K) {
        PresentEntriesVanish(K, shards, x);
      }
    }

    lemma ParityRow(K: nat, shards: set<nat>, x: Vector<T>, q: nat)
      requires |x| == K && Orthogonal(K, shards, x) && q in Parity(K, shards)
      ensures q >= K && f.Dot(EncodingRow(K, q), x, K) == f.zero
      ensures forall c: nat | c < K :: EncodingRow(K, q)[c] == Coefficient(q - K, c)
    {}

    lemma LostOne(K: nat, shards: set<nat>, x: Vector<T>, c: nat, q: nat)
      requires Valid() && |x| == K && Orthogonal(K, shards, x)
      requires Lost(K, shards) == {c} && q in Parity(K, shards)
      requires q >= K ==> Coefficient(q - K, c) != f.zero
      ensures x == f.Zeros(K)
    {
      hide Field.Dot; hide Coefficient; hide EncodingRow; hide Valid; hide Field.Laws;
      FieldLaws();
      PresentEntriesVanish(K, shards, x);
      ParityRow(K, shards, x, q);
      f.DotOne(EncodingRow(K, q), x, c, K);
      if x[c] != f.zero { f.MulNonZero(Coefficient(q - K, c), x[c]); }
    }

    lemma LostTwo(K: nat, shards: set<nat>, x: Vector<T>, c: nat, d: nat, p: nat, q: nat)
      requires Valid() && |x| == K && Orthogonal(K, shards, x) && c < d
      requires Lost(K, shards) == {c, d} && p in Parity(K, shards) && q in Parity(K, shards)
      requires p >= K && q >= K ==>
        f.mul(Coefficient(p - K, c), Coefficient(q - K, d)) != f.mul(Coefficient(p - K, d), Coefficient(q - K, c))
      ensures x == f.Zeros(K)
    {
      hide Field.Dot; hide Coefficient; hide EncodingRow; hide Valid; hide Field.Laws;
      FieldLaws();
      PresentEntriesVanish(K, shards, x);
      ParityRow(K, shards, x, p);
      ParityRow(K, shards, x, q);
      assert c in Lost(K, shards) && d in Lost(K, shards);
      f.DotTwo(EncodingRow(K, p), x, c, d, K);
      f.DotTwo(EncodingRow(K, q), x, c, d, K);
      f.TwoUnknowns(Coefficient(p - K, c), Coefficient(p - K, d), Coefficient(q - K, c), Coefficient(q - K, d), x[c],
                    x[d]);
    }

    // K arbitrary, M at most two.

    lemma FirstParityCoefficients(c: nat)
      requires Valid()
      ensures Coefficient(0, c) == f.one
      ensures c < 256 ==> Coefficient(1, c) == f.Power(point(1), c) != f.zero
    {
      hide Field.Power; hide Valid; hide Field.Laws;
      FieldLaws();
      FirstPoints();
      f.PowerOfOne(c % 256);
      DistinctPoints(1, 1);
      f.PowerNonZero(point(1), c % 256);
    }

    lemma OneLostOfMany(K: nat, shards: set<nat>, x: Vector<T>, c: nat, q: nat)
      requires Valid() && |x| == K && Orthogonal(K, shards, x) && K <= q <= K + 1 && (q == K || c < 255)
      requires Lost(K, shards) == {c} && q in Parity(K, shards)
      ensures x == f.Zeros(K)
    {
      hide Coefficient; hide EncodingRow; hide Orthogonal; hide Valid; hide Field.Laws; hide Field.Power;
      FieldLaws();
      FirstParityCoefficients(c);
      f.ZeroIsNotOne();
      LostOne(K, shards, x, c, q);
    }

    lemma TwoLostOfMany(K: nat, shards: set<nat>, x: Vector<T>, c: nat, d: nat)
      requires Valid() && |x| == K && Orthogonal(K, shards, x) && c < d < 255
      requires Lost(K, shards) == {c, d} && Parity(K, shards) == {K, K + 1}
      ensures x == f.Zeros(K)
    {
      hide Coefficient; hide EncodingRow; hide Orthogonal; hide Valid; hide Field.Laws; hide Field.Power;
      FieldLaws();
      FirstParityCoefficients(c);
      FirstParityCoefficients(d);
      f.MulOne(f.Power(point(1), c));
      f.MulOne(f.Power(point(1), d));
      DistinctPowers(c, d);
      assert K in Parity(K, shards) && K + 1 in Parity(K, shards);
      LostTwo(K, shards, x, c, d, K, K + 1);
    }

    lemma FewParityShards(K: nat, M: nat, shards: set<nat>, x: Vector<T>)
      requires Valid() && (M == 1 || (M == 2 && K <= 255))
      requires (forall i | i in shards :: i < K + M) && |shards| == K
      requires |x| == K && Orthogonal(K, shards, x)
      ensures x == f.Zeros(K)
    {
      hide Orthogonal; hide Valid; hide Field.Zeros;
      var lost, parity := Lost(K, shards), Parity(K, shards);
      AsManyLostAsParity(K, shards);
      AtMost(K, M, shards);
      if |lost| == 0 {
        AllDataSuffices(K, shards);
      } else if |lost| == 1 {
        var c := SizeOne(lost);
        var q := SizeOne(parity);
        assert q in parity && c in lost;
        OneLostOfMany(K, shards, x, c, q);
      } else {
        var c, d := SizeTwo(lost);
        var p, q := SizeTwo(parity);
        assert p in parity && q in parity && c in lost && d in lost;
        TwoLostOfMany(K, shards, x, c, d);
      }
    }

    // K at most three.

    lemma SmallCoefficients(p: nat)
      requires Valid() && p < 255
      ensures point(p) != f.zero
      ensures Coefficient(p, 0) == f.one && Coefficient(p, 1) == point(p)
      ensures Coefficient(p, 2) == f.mul(point(p), point(p)) != f.zero
      ensures Coefficient(p, 3) == f.mul(f.mul(point(p), point(p)), point(p))
    {
      hide Valid; hide Field.Laws;
      FieldLaws();
      DistinctPoints(p, p);
      f.SmallPowers(point(p));
      f.MulNonZero(point(p), point(p));
    }

    lemma OneOfFew(K: nat, M: nat, shards: set<nat>, x: Vector<T>)
      requires Valid() && K <= 3 && M <= 255 && forall i | i in shards :: i < K + M
      requires |x| == K && Orthogonal(K, shards, x)
      requires |Lost(K, shards)| == 1 == |Parity(K, shards)|
      ensures x == f.Zeros(K)
    {
      hide Coefficient; hide Field.Dot; hide EncodingRow; hide Orthogonal; hide Valid; hide Field.Laws;
      FieldLaws();
      var c := SizeOne(Lost(K, shards));
      var q := SizeOne(Parity(K, shards));
      assert q in Parity(K, shards) && c in Lost(K, shards);
      SmallCoefficients(q - K);
      f.ZeroIsNotOne();
      LostOne(K, shards, x, c, q);
    }

    lemma SmallDeterminants(p: nat, q: nat, c: nat, d: nat)
      requires Valid() && p < 255 && q < 255 && p != q && c < d < 3
      ensures f.mul(Coefficient(p, c), Coefficient(q, d)) != f.mul(Coefficient(p, d), Coefficient(q, c))
    {
      hide Coefficient; hide Valid; hide Field.Laws;
      FieldLaws();
      SmallCoefficients(p);
      SmallCoefficients(q);
      var a, b := point(p), point(q);
      DistinctPoints(p, q);
      f.MulOne(a); f.MulOne(b); f.MulOne(f.mul(a, a)); f.MulOne(f.mul(b, b));
      f.SquaresDiffer(a, b);
      f.CrossProductsDiffer(a, b);
    }

    lemma TwoOfFew(K: nat, M: nat, shards: set<nat>, x: Vector<T>)
      requires Valid() && K <= 3 && M <= 255 && forall i | i in shards :: i < K + M
      requires |x| == K && Orthogonal(K, shards, x)
      requires |Lost(K, shards)| == 2 == |Parity(K, shards)|
      ensures x == f.Zeros(K)
    {
      hide Coefficient; hide Field.Dot; hide EncodingRow; hide Orthogonal; hide Valid;
      var c, d := SizeTwo(Lost(K, shards));
      var p, q := SizeTwo(Parity(K, shards));
      assert c in Lost(K, shards) && d in Lost(K, shards) && p in Parity(K, shards) && q in Parity(K, shards);
      SmallDeterminants(p - K, q - K, c, d);
      LostTwo(K, shards, x, c, d, p, q);
    }

    lemma ThreeOfFew(M: nat, shards: set<nat>, x: Vector<T>)
      requires Valid() && M <= 255 && forall i | i in shards :: i < 3 + M
      requires |x| == 3 && Orthogonal(3, shards, x)
      requires |Parity(3, shards)| == 3
      ensures x == f.Zeros(3)
    {
      hide Coefficient; hide EncodingRow; hide Orthogonal; hide Field.Quadratic; hide Valid; hide Field.Laws;
      FieldLaws();
      var p, q, r := SizeThree(Parity(3, shards));
      assert p in Parity(3, shards) && q in Parity(3, shards) && r in Parity(3, shards);
      QuadraticRow(M, shards, x, p);
      QuadraticRow(M, shards, x, q);
      QuadraticRow(M, shards, x, r);
      DistinctPoints(p - 3, q - 3); DistinctPoints(p - 3, r - 3); DistinctPoints(q - 3, r - 3);
      f.ThreeRoots(point(p - 3), point(q - 3), point(r - 3), x[0], x[1], x[2]);
    }

    lemma FewDataShards(K: nat, M: nat, shards: set<nat>, x: Vector<T>)
      requires Valid() && K <= 3 && M <= 255
      requires (forall i | i in shards :: i < K + M) && |shards| == K
      requires |x| == K && Orthogonal(K, shards, x)
      ensures x == f.Zeros(K)
    {
      hide Orthogonal; hide Below; hide Valid;
      AsManyLostAsParity(K, shards);
      AtMost(K, M, shards);
      if |Lost(K, shards)| == 0 {
        PresentEntriesVanish(K, shards, x);
      } else if |Lost(K, shards)| == 1 {
        OneOfFew(K, M, shards, x);
      } else if |Lost(K, shards)| == 2 {
        TwoOfFew(K, M, shards, x);
      } else {
        ThreeOfFew(M, shards, x);
      }
    }

    lemma QuadraticRow(M: nat, shards: set<nat>, x: Vector<T>, q: nat)
      requires Valid() && M <= 255 && forall i | i in shards :: i < 3 + M
      requires |x| == 3 && Orthogonal(3, shards, x) && q in Parity(3, shards)
      ensures 3 <= q < 258 && f.Quadratic(point(q - 3), x[0], x[1], x[2]) == f.zero
    {
      hide Coefficient; hide Valid; hide Field.Laws;
      FieldLaws();
      ParityRow(3, shards, x, q);
      SmallCoefficients(q - 3);
      var row := EncodingRow(3, q);
      assert f.Dot(row, x, 0) == f.zero;
      assert f.Dot(row, x, 1) == f.add(f.zero, f.mul(row[0], x[0]));
      assert f.Dot(row, x, 2) == f.add(f.Dot(row, x, 1), f.mul(row[1], x[1]));
      f.MulOne(x[0]);
      f.AddZero(x[0]);
    }

    // K = 1.

    lemma SingleDataShard(shards: set<nat>, x: Vector<T>)
      requires Valid() && |shards| == 1 && |x| == 1 && Orthogonal(1, shards, x)
      ensures x == f.Zeros(1)
    {
      hide Field.Dot; hide Coefficient; hide EncodingRow; hide Orthogonal; hide Valid; hide Field.Laws;
      FieldLaws();
      AsManyLostAsParity(1, shards);
      LargerSet(Lost(1, shards), Below(1));
      if |Lost(1, shards)| == 0 {
        PresentEntriesVanish(1, shards, x);
      } else {
        var c := SizeOne(Lost(1, shards));
        var q := SizeOne(Parity(1, shards));
        assert q in Parity(1, shards) && c in Lost(1, shards);
        FirstColumn(q - 1);
        f.ZeroIsNotOne();
        LostOne(1, shards, x, c, q);
      }
    }

    lemma FirstColumn(p: nat)
      ensures Coefficient(p, 0) == f.one
    {}

    // Outside these parameters some K shards do not determine the data.

    /** A nonzero vector, zero outside the lost shards and orthogonal to the parity rows. */
    lemma KernelWitness(K: nat, lost: set<nat>, parity: set<nat>, x: Vector<T>)
      requires Valid() && (forall i | i in lost :: i < K) && (forall i | i in parity :: i >= K) && |lost| == |parity|
      requires |x| == K && x != f.Zeros(K) && forall i: nat | i < K && i !in lost :: x[i] == f.zero
      requires forall q | q in parity :: f.Dot(EncodingRow(K, q), x, K) == f.zero
      ensures !Nonsingular(K, Replaced(K, lost, parity))
    {
      hide Field.Dot; hide Valid; hide Field.Laws;
      FieldLaws();
      var shards := Replaced(K, lost, parity);
      forall index | index in shards ensures f.Dot(EncodingRow(K, index), x, K) == f.zero {
        if index < K { f.DotUnit(K, index, x); }
      }
      assert Orthogonal(K, shards, x);
    }

    /** Losing data shards 0 and 255 with only the first two parity shards left to replace them. */
    lemma LongRowsRepeat(K: nat) returns (shards: set<nat>)
      requires Valid() && K >= 256
      ensures (forall i | i in shards :: i < K + 2) && |shards| == K && !Nonsingular(K, shards)
    {
      hide Coefficient; hide Nonsingular; hide Field.Dot; hide Valid; hide Field.Laws;
      FieldLaws();
      var x: Vector<T> := seq(K, i => if i == 0 || i == 255 then f.one else f.zero);
      FirstParityCoefficients(0);
      FirstParityCoefficients(255);
      FirstPoints();
      f.ZeroIsNotOne();
      f.MulOne(f.one);
      f.AddSelf(f.one);
      f.DotTwo(EncodingRow(K, K), x, 0, 255, K);
      f.DotTwo(EncodingRow(K, K + 1), x, 0, 255, K);
      assert x[0] != f.Zeros(K)[0];
      assert |{0, 255}| == |{K, K + 1}|;
      KernelWitness(K, {0, 255}, {K, K + 1}, x);
      shards := Replaced(K, {0, 255}, {K, K + 1});
    }

    /** A row of the first three parity shards, times a vector with the coefficients of a cubic. */
    lemma CubicRow(K: nat, p: nat, x: Vector<T>)
      requires Valid() && K >= 4 && p < 3 && |x| == K
      requires var a, b, c := point(0), point(1), point(2);
               x[0] == f.mul(f.mul(a, b), c) && x[1] == f.add(f.mul(a, b), f.mul(c, c)) && x[3] == f.one
      requires forall i | 0 <= i < K && i != 0 && i != 1 && i != 3 :: x[i] == f.zero
      ensures f.Dot(EncodingRow(K, K + p), x, K) == f.zero
    {
      hide Coefficient; hide Field.Dot; hide Valid; hide Field.Laws;
      FieldLaws();
      f.DotThree(EncodingRow(K, K + p), x, K);
      SmallCoefficients(p);
      FirstPoints();
      f.CubicRoots(point(0), point(1));
      f.MulOne(x[0]);
      f.MulOne(f.mul(f.mul(point(p), point(p)), point(p)));
    }

    /**
      * Losing data shards 0, 1 and 3 with the first three parity shards: their points are the roots of a cubic
      * without square.
      */
    lemma ThreeRowsFail(K: nat, M: nat) returns (shards: set<nat>)
      requires Valid() && K >= 4 && M >= 3
      ensures (forall i | i in shards :: i < K + M) && |shards| == K && !Nonsingular(K, shards)
    {
      hide Nonsingular; hide EncodingRow; hide Field.Dot; hide Replaced; hide Valid; hide Field.Laws;
      FieldLaws();
      var a, b, c := point(0), point(1), point(2);
      var u, v := f.mul(f.mul(a, b), c), f.add(f.mul(a, b), f.mul(c, c));
      var x: Vector<T> := seq(K, i => if i == 0 then u else if i == 1 then v else if i == 3 then f.one else f.zero);
      CubicRow(K, 0, x);
      CubicRow(K, 1, x);
      CubicRow(K, 2, x);
      f.ZeroIsNotOne();
      assert x[3] != f.Zeros(K)[3];
      var lost, parity := {0, 1, 3}, {K, K + 1, K + 2};
      SizeOfThree(0, 1, 3);
      SizeOfThree(K, K + 1, K + 2);
      KernelWitness(K, lost, parity, x);
      shards := Replaced(K, lost, parity);
    }

    /** The 256th parity shard has the factors 0^c, the same row as data shard 0. */
    lemma WrappedFactorFails(K: nat, M: nat) returns (shards: set<nat>)
      requires Valid() && K >= 2 && M >= 256
      ensures (forall i | i in shards :: i < K + M) && |shards| == K && !Nonsingular(K, shards)
    {
      hide Coefficient; hide Nonsingular; hide Field.Dot; hide Valid; hide Field.Laws;
      FieldLaws();
      var x := f.Unit(K, 1);
      WrappedFactor();
      f.ZeroIsNotOne();
      f.MulZero(f.one);
      f.DotOne(EncodingRow(K, K + 255), x, 1, K);
      assert x[1] != f.Zeros(K)[1];
      KernelWitness(K, {1}, {K + 255}, x);
      shards := Replaced(K, {1}, {K + 255});
    }

    lemma WrappedFactor()
      requires Valid()
      ensures Coefficient(255, 1) == f.zero
    {
      hide Valid; hide Field.Laws;
      FieldLaws();
      FirstPoints();
      f.SmallPowers(f.zero);
    }

    /** Exactly when any K of the K + M shards determine the data. */
    lemma AnyKSufficeIff(K: nat, M: nat)
      requires Valid() && K > 0 && M > 0
      ensures AnyKSuffice(K, M) <==> Recoverable(K, M)
    {
      hide Orthogonal; hide Valid;
      if Recoverable(K, M) {
        forall shards: set<nat>, x: Vector<T>
          | (forall i | i in shards :: i < K + M) && |shards| == K && |x| == K && Orthogonal(K, shards, x)
          ensures x == f.Zeros(K)
        {
          if K == 1 {
            SingleDataShard(shards, x);
          } else if M <= 2 && (M == 1 || K <= 255) {
            FewParityShards(K, M, shards, x);
          } else {
            FewDataShards(K, M, shards, x);
          }
        }
      } else if M == 2 {
        var shards := LongRowsRepeat(K);
      } else if K >= 4 {
        var shards := ThreeRowsFail(K, M);
      } else {
        var shards := WrappedFactorFails(K, M);
      }
    }
  }
}
