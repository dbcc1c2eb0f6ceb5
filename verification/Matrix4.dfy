/** 4x4 matrices over exact reals, stored flat and row by row as in the C sources. */
module Matrix4 {

  type Mat = m: seq<real> | |m| == 16 witness seq(16, _ => 0.0)
  type Vec = v: seq<real> | |v| == 4 witness seq(4, _ => 0.0)

  function At(m: Mat, r: nat, c: nat): real
    requires r < 4 && c < 4
  {
    m[4 * r + c]
  }

  function Identity(): Mat {
    seq(16, n => if n % 5 == 0 then 1.0 else 0.0)
  }

  function Row(m: Mat, r: nat): Vec
    requires r < 4
  {
    [At(m, r, 0), At(m, r, 1), At(m, r, 2), At(m, r, 3)]
  }

  function Col(m: Mat, c: nat): Vec
    requires c < 4
  {
    [At(m, 0, c), At(m, 1, c), At(m, 2, c), At(m, 3, c)]
  }

  function Dot(u: Vec, v: Vec): real {
    u[0] * v[0] + u[1] * v[1] + u[2] * v[2] + u[3] * v[3]
  }

  function Mul(a: Mat, b: Mat): Mat {
    seq(16, n requires 0 <= n < 16 => Dot(Row(a, n / 4), Col(b, n % 4)))
  }

  /** Row vector times matrix, the convention of fslutil.c. */
  function VecMul(v: Vec, m: Mat): Vec {
    [Dot(v, Col(m, 0)), Dot(v, Col(m, 1)), Dot(v, Col(m, 2)), Dot(v, Col(m, 3))]
  }

  /** Matrix times column vector. */
  function MulVec(m: Mat, v: Vec): Vec {
    [Dot(Row(m, 0), v), Dot(Row(m, 1), v), Dot(Row(m, 2), v), Dot(Row(m, 3), v)]
  }

  ghost predicate Invertible(m: Mat) {
    exists b: Mat :: Mul(b, m) == Identity()
  }

  lemma SameEntries(a: Mat, b: Mat)
    requires forall r, c :: 0 <= r < 4 && 0 <= c < 4 ==> At(a, r, c) == At(b, r, c)
    ensures a == b
  {
    forall n | 0 <= n < 16
      ensures a[n] == b[n]
    {
      assert At(a, n / 4, n % 4) == At(b, n / 4, n % 4);
    }
  }

  lemma MulAt(a: Mat, b: Mat, r: nat, c: nat)
    requires r < 4 && c < 4
    ensures At(Mul(a, b), r, c) == Dot(Row(a, r), Col(b, c))
  {
    hide Dot, Row, Col;
    assert (4 * r + c) / 4 == r && (4 * r + c) % 4 == c;
  }

  /** The entries of a product, and of a row vector and a column vector times a matrix. */
  lemma MulEntries(a: Mat, b: Mat, v: Vec, r: nat, c: nat)
    requires r < 4 && c < 4
    ensures Mul(a, b)[4 * r + c] == a[4 * r] * b[c] + a[4 * r + 1] * b[4 + c] + a[4 * r + 2] * b[8 + c] + a[4 * r + 3] * b[12 + c]
    ensures VecMul(v, b)[c] == v[0] * b[c] + v[1] * b[4 + c] + v[2] * b[8 + c] + v[3] * b[12 + c]
    ensures MulVec(a, v)[r] == a[4 * r] * v[0] + a[4 * r + 1] * v[1] + a[4 * r + 2] * v[2] + a[4 * r + 3] * v[3]
  {
    hide Mul, Row, Col;
    MulAt(a, b, r, c);
    RowEntries(a, r);
    ColEntries(b, c);
  }

  lemma RowEntries(m: Mat, r: nat)
    requires r < 4
    ensures Row(m, r) == [m[4 * r], m[4 * r + 1], m[4 * r + 2], m[4 * r + 3]]
  {}

  lemma ColEntries(m: Mat, c: nat)
    requires c < 4
    ensures Col(m, c) == [m[c], m[4 + c], m[8 + c], m[12 + c]]
  {}

  lemma IdentityAt(r: nat, c: nat)
    requires r < 4 && c < 4
    ensures At(Identity(), r, c) == if r == c then 1.0 else 0.0
  {}

  /** Rows and columns of a product. */
  lemma MulRow(a: Mat, b: Mat, r: nat)
    requires r < 4
    ensures Row(Mul(a, b), r) == VecMul(Row(a, r), b)
  {
    MulAt(a, b, r, 0); MulAt(a, b, r, 1); MulAt(a, b, r, 2); MulAt(a, b, r, 3);
    hide Mul, Dot, At;
  }

  lemma MulCol(a: Mat, b: Mat, c: nat)
    requires c < 4
    ensures Col(Mul(a, b), c) == MulVec(a, Col(b, c))
  {
    MulAt(a, b, 0, c); MulAt(a, b, 1, c); MulAt(a, b, 2, c); MulAt(a, b, 3, c);
    hide Mul, Dot, At;
  }

  lemma SameRows(a: Mat, b: Mat)
    requires forall r :: 0 <= r < 4 ==> Row(a, r) == Row(b, r)
    ensures a == b
  {
    forall r, c | 0 <= r < 4 && 0 <= c < 4
      ensures At(a, r, c) == At(b, r, c)
    {
      assert Row(a, r)[c] == Row(b, r)[c];
    }
    SameEntries(a, b);
  }

  // ---------- laws ----------

  /** u (m v) == (u m) v for numbers: the one fact behind associativity. */
  lemma Bilinear(u: Vec, m: Mat, v: Vec)
    ensures Dot(VecMul(u, m), v) == Dot(u, MulVec(m, v))
  {
    BilinearRows(u, Row(m, 0), Row(m, 1), Row(m, 2), Row(m, 3), v);
    hide Dot;
    assert Col(m, 0) == Pick(Row(m, 0), Row(m, 1), Row(m, 2), Row(m, 3), 0);
    assert Col(m, 1) == Pick(Row(m, 0), Row(m, 1), Row(m, 2), Row(m, 3), 1);
    assert Col(m, 2) == Pick(Row(m, 0), Row(m, 1), Row(m, 2), Row(m, 3), 2);
    assert Col(m, 3) == Pick(Row(m, 0), Row(m, 1), Row(m, 2), Row(m, 3), 3);
  }

  function Pick(a: Vec, b: Vec, c: Vec, d: Vec, i: nat): Vec
    requires i < 4
  {
    [a[i], b[i], c[i], d[i]]
  }

  lemma BilinearRows(u: Vec, a: Vec, b: Vec, c: Vec, d: Vec, v: Vec)
    ensures Dot([Dot(u, Pick(a, b, c, d, 0)), Dot(u, Pick(a, b, c, d, 1)), Dot(u, Pick(a, b, c, d, 2)), Dot(u, Pick(a, b, c, d, 3))], v)
         == Dot(u, [Dot(a, v), Dot(b, v), Dot(c, v), Dot(d, v)])
  {
    var x, y := Plus(Scaled(a, u[0]), Scaled(b, u[1])), Plus(Scaled(c, u[2]), Scaled(d, u[3]));
    hide *;
    Combine(u, a, b, c, d, 0); Combine(u, a, b, c, d, 1); Combine(u, a, b, c, d, 2); Combine(u, a, b, c, d, 3);
    FourEntries(Plus(x, y));
    DotPlus(x, y, v);
    DotPlus(Scaled(a, u[0]), Scaled(b, u[1]), v);
    DotPlus(Scaled(c, u[2]), Scaled(d, u[3]), v);
    DotScaled(a, u[0], v);
    DotScaled(b, u[1], v);
    DotScaled(c, u[2], v);
    DotScaled(d, u[3], v);
  }

  lemma Combine(u: Vec, a: Vec, b: Vec, c: Vec, d: Vec, i: nat)
    requires i < 4
    ensures Dot(u, Pick(a, b, c, d, i)) == Plus(Plus(Scaled(a, u[0]), Scaled(b, u[1])), Plus(Scaled(c, u[2]), Scaled(d, u[3])))[i]
  {}

  lemma FourEntries(v: Vec)
    ensures v == [v[0], v[1], v[2], v[3]]
  {}

  function Plus(u: Vec, v: Vec): Vec {
    [u[0] + v[0], u[1] + v[1], u[2] + v[2], u[3] + v[3]]
  }

  lemma DotPlus(u: Vec, w: Vec, v: Vec)
    ensures Dot(Plus(u, w), v) == Dot(u, v) + Dot(w, v)
  {}

  /** (v a) b == v (a b) */
  lemma VecMulAssoc(v: Vec, a: Mat, b: Mat)
    ensures VecMul(VecMul(v, a), b) == VecMul(v, Mul(a, b))
  {
    Bilinear(v, a, Col(b, 0)); Bilinear(v, a, Col(b, 1)); Bilinear(v, a, Col(b, 2)); Bilinear(v, a, Col(b, 3));
    MulCol(a, b, 0); MulCol(a, b, 1); MulCol(a, b, 2); MulCol(a, b, 3);
    hide Dot, Col, Mul, MulVec;
  }

  lemma MulVecAssoc(a: Mat, b: Mat, v: Vec)
    ensures MulVec(Mul(a, b), v) == MulVec(a, MulVec(b, v))
  {
    Bilinear(Row(a, 0), b, v); Bilinear(Row(a, 1), b, v); Bilinear(Row(a, 2), b, v); Bilinear(Row(a, 3), b, v);
    MulRow(a, b, 0); MulRow(a, b, 1); MulRow(a, b, 2); MulRow(a, b, 3);
    hide Dot, Row, Mul, VecMul;
  }

  lemma VecMulIdentity(v: Vec)
    ensures VecMul(v, Identity()) == v && MulVec(Identity(), v) == v
  {
    var x, y := VecMul(v, Identity()), MulVec(Identity(), v);
    assert x[0] == v[0] && x[1] == v[1] && x[2] == v[2] && x[3] == v[3];
    assert y[0] == v[0] && y[1] == v[1] && y[2] == v[2] && y[3] == v[3];
  }

  lemma MulIdentity(m: Mat)
    ensures Mul(Identity(), m) == m && Mul(m, Identity()) == m
  {
    hide *;
    forall r | 0 <= r < 4
      ensures Row(Mul(m, Identity()), r) == Row(m, r)
    {
      MulRow(m, Identity(), r);
      VecMulIdentity(Row(m, r));
    }
    SameRows(Mul(m, Identity()), m);
    forall r | 0 <= r < 4
      ensures Row(Mul(Identity(), m), r) == Row(m, r)
    {
      MulRow(Identity(), m, r);
      UnitRow(m, r);
    }
    SameRows(Mul(Identity(), m), m);
  }

  lemma UnitRow(m: Mat, r: nat)
    requires r < 4
    ensures VecMul(Row(Identity(), r), m) == Row(m, r)
  {}

  lemma MulAssoc(a: Mat, b: Mat, c: Mat)
    ensures Mul(Mul(a, b), c) == Mul(a, Mul(b, c))
  {
    hide *;
    forall r | 0 <= r < 4
      ensures Row(Mul(Mul(a, b), c), r) == Row(Mul(a, Mul(b, c)), r)
    {
      MulRow(Mul(a, b), c, r);
      MulRow(a, b, r);
      MulRow(a, Mul(b, c), r);
      VecMulAssoc(Row(a, r), b, c);
    }
    SameRows(Mul(Mul(a, b), c), Mul(a, Mul(b, c)));
  }

  /** A left inverse and a right inverse are one and the same. */
  lemma InverseUnique(b: Mat, m: Mat, d: Mat)
    requires Mul(b, m) == Identity() && Mul(m, d) == Identity()
    ensures b == d
  {
    hide *;
    MulAssoc(b, m, d);
    MulIdentity(b);
    MulIdentity(d);
  }

  function Scaled(v: Vec, t: real): Vec {
    [v[0] * t, v[1] * t, v[2] * t, v[3] * t]
  }

  lemma DotScaled(u: Vec, t: real, v: Vec)
    ensures Dot(Scaled(u, t), v) == Dot(u, v) * t
  {}

  lemma VecMulScaled(v: Vec, t: real, m: Mat)
    ensures VecMul(Scaled(v, t), m) == Scaled(VecMul(v, m), t)
  {
    hide Dot, Col;
    DotScaled(v, t, Col(m, 0)); DotScaled(v, t, Col(m, 1)); DotScaled(v, t, Col(m, 2)); DotScaled(v, t, Col(m, 3));
    var x, y := VecMul(Scaled(v, t), m), Scaled(VecMul(v, m), t);
    assert x[0] == y[0] && x[1] == y[1] && x[2] == y[2] && x[3] == y[3];
  }

  // ---------- replacing rows ----------

  function SetRow(m: Mat, r: nat, v: Vec): Mat
    requires r < 4
  {
    seq(16, n requires 0 <= n < 16 => if n / 4 == r then v[n % 4] else m[n])
  }

  lemma SetRowRow(m: Mat, r: nat, v: Vec, k: nat)
    requires r < 4 && k < 4
    ensures Row(SetRow(m, r, v), k) == if k == r then v else Row(m, k)
  {
    var w := SetRow(m, r, v);
    forall c | 0 <= c < 4
      ensures w[4 * k + c] == if k == r then v[c] else m[4 * k + c]
    {
      assert (4 * k + c) / 4 == k && (4 * k + c) % 4 == c;
    }
  }

  lemma SetRowSame(m: Mat, r: nat)
    requires r < 4
    ensures SetRow(m, r, Row(m, r)) == m
  {
    hide *;
    forall k | 0 <= k < 4
      ensures Row(SetRow(m, r, Row(m, r)), k) == Row(m, k)
    {
      SetRowRow(m, r, Row(m, r), k);
    }
    SameRows(SetRow(m, r, Row(m, r)), m);
  }

  /** Replacing a row of the left factor replaces a row of the product. */
  lemma MulSetRow(a: Mat, r: nat, v: Vec, b: Mat)
    requires r < 4
    ensures Mul(SetRow(a, r, v), b) == SetRow(Mul(a, b), r, VecMul(v, b))
  {
    hide *;
    forall k | 0 <= k < 4
      ensures Row(Mul(SetRow(a, r, v), b), k) == Row(SetRow(Mul(a, b), r, VecMul(v, b)), k)
    {
      MulRow(SetRow(a, r, v), b, k);
      SetRowRow(a, r, v, k);
      SetRowRow(Mul(a, b), r, VecMul(v, b), k);
      MulRow(a, b, k);
    }
    SameRows(Mul(SetRow(a, r, v), b), SetRow(Mul(a, b), r, VecMul(v, b)));
  }

  function Transpose(m: Mat): Mat {
    seq(16, n requires 0 <= n < 16 => m[4 * (n % 4) + n / 4])
  }

  lemma TransposeAt(m: Mat, r: nat, c: nat)
    requires r < 4 && c < 4
    ensures At(Transpose(m), r, c) == At(m, c, r)
  {
    assert (4 * r + c) / 4 == r && (4 * r + c) % 4 == c;
  }
}
