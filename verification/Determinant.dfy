/** Determinant, minors and cofactors of a 4x4 matrix. */
module Determinant {
  import opened Matrix4

  function Det3(a: real, b: real, c: real, d: real, e: real, f: real, g: real, h: real, i: real): real {
    a * e * i + b * f * g + c * d * h - c * e * g - b * d * i - a * f * h
  }

  /** The Leibniz sum over all permutations. */
  function DetN(a0: real, a1: real, a2: real, a3: real,
    b0: real, b1: real, b2: real, b3: real,
    c0: real, c1: real, c2: real, c3: real,
    d0: real, d1: real, d2: real, d3: real): real
  {
    a0 * b1 * c2 * d3 - a0 * b1 * c3 * d2 - a0 * b2 * c1 * d3 + a0 * b2 * c3 * d1
    + a0 * b3 * c1 * d2 - a0 * b3 * c2 * d1
    - a1 * b0 * c2 * d3 + a1 * b0 * c3 * d2 + a1 * b2 * c0 * d3 - a1 * b2 * c3 * d0
    - a1 * b3 * c0 * d2 + a1 * b3 * c2 * d0
    + a2 * b0 * c1 * d3 - a2 * b0 * c3 * d1 - a2 * b1 * c0 * d3 + a2 * b1 * c3 * d0
    + a2 * b3 * c0 * d1 - a2 * b3 * c1 * d0
    - a3 * b0 * c1 * d2 + a3 * b0 * c2 * d1 + a3 * b1 * c0 * d2 - a3 * b1 * c2 * d0
    - a3 * b2 * c0 * d1 + a3 * b2 * c1 * d0
  }

  function Det(m: Mat): real {
    DetN(m[0], m[1], m[2], m[3], m[4], m[5], m[6], m[7], m[8], m[9], m[10], m[11], m[12], m[13], m[14], m[15])
  }

  /** The k-th index that is not `r`. */
  function Skip(k: nat, r: nat): nat {
    if k < r then k else k + 1
  }

  /** The determinant left when row `r` and column `c` are struck out. */
  function Minor(m: Mat, r: nat, c: nat): real
    requires r < 4 && c < 4
  {
    Det3(At(m, Skip(0, r), Skip(0, c)), At(m, Skip(0, r), Skip(1, c)), At(m, Skip(0, r), Skip(2, c)),
         At(m, Skip(1, r), Skip(0, c)), At(m, Skip(1, r), Skip(1, c)), At(m, Skip(1, r), Skip(2, c)),
         At(m, Skip(2, r), Skip(0, c)), At(m, Skip(2, r), Skip(1, c)), At(m, Skip(2, r), Skip(2, c)))
  }

  function Signed(r: nat, c: nat, x: real): real {
    if (r + c) % 2 == 0 then x else -x
  }

  function Cofactor(m: Mat, r: nat, c: nat): real
    requires r < 4 && c < 4
  {
    Signed(r, c, Minor(m, r, c))
  }

  function Cofactors(m: Mat, q: nat): Vec
    requires q < 4
  {
    [Cofactor(m, q, 0), Cofactor(m, q, 1), Cofactor(m, q, 2), Cofactor(m, q, 3)]
  }

  // ---------- identities between numbers ----------

  lemma Laplace0(a0: real, a1: real, a2: real, a3: real,
    b0: real, b1: real, b2: real, b3: real,
    c0: real, c1: real, c2: real, c3: real,
    d0: real, d1: real, d2: real, d3: real)
    ensures a0 * Det3(b1, b2, b3, c1, c2, c3, d1, d2, d3) +
      a1 * -Det3(b0, b2, b3, c0, c2, c3, d0, d2, d3) +
      a2 * Det3(b0, b1, b3, c0, c1, c3, d0, d1, d3) +
      a3 * -Det3(b0, b1, b2, c0, c1, c2, d0, d1, d2)
      == DetN(a0, a1, a2, a3, b0, b1, b2, b3, c0, c1, c2, c3, d0, d1, d2, d3)
  {}

  lemma Laplace1(a0: real, a1: real, a2: real, a3: real,
    b0: real, b1: real, b2: real, b3: real,
    c0: real, c1: real, c2: real, c3: real,
    d0: real, d1: real, d2: real, d3: real)
    ensures b0 * -Det3(a1, a2, a3, c1, c2, c3, d1, d2, d3) +
      b1 * Det3(a0, a2, a3, c0, c2, c3, d0, d2, d3) +
      b2 * -Det3(a0, a1, a3, c0, c1, c3, d0, d1, d3) +
      b3 * Det3(a0, a1, a2, c0, c1, c2, d0, d1, d2)
      == DetN(a0, a1, a2, a3, b0, b1, b2, b3, c0, c1, c2, c3, d0, d1, d2, d3)
  {}

  lemma Laplace2(a0: real, a1: real, a2: real, a3: real,
    b0: real, b1: real, b2: real, b3: real,
    c0: real, c1: real, c2: real, c3: real,
    d0: real, d1: real, d2: real, d3: real)
    ensures c0 * Det3(a1, a2, a3, b1, b2, b3, d1, d2, d3) +
      c1 * -Det3(a0, a2, a3, b0, b2, b3, d0, d2, d3) +
      c2 * Det3(a0, a1, a3, b0, b1, b3, d0, d1, d3) +
      c3 * -Det3(a0, a1, a2, b0, b1, b2, d0, d1, d2)
      == DetN(a0, a1, a2, a3, b0, b1, b2, b3, c0, c1, c2, c3, d0, d1, d2, d3)
  {}

  lemma Laplace3(a0: real, a1: real, a2: real, a3: real,
    b0: real, b1: real, b2: real, b3: real,
    c0: real, c1: real, c2: real, c3: real,
    d0: real, d1: real, d2: real, d3: real)
    ensures d0 * -Det3(a1, a2, a3, b1, b2, b3, c1, c2, c3) +
      d1 * Det3(a0, a2, a3, b0, b2, b3, c0, c2, c3) +
      d2 * -Det3(a0, a1, a3, b0, b1, b3, c0, c1, c3) +
      d3 * Det3(a0, a1, a2, b0, b1, b2, c0, c1, c2)
      == DetN(a0, a1, a2, a3, b0, b1, b2, b3, c0, c1, c2, c3, d0, d1, d2, d3)
  {}

  lemma Swap01(a0: real, a1: real, a2: real, a3: real,
    b0: real, b1: real, b2: real, b3: real,
    c0: real, c1: real, c2: real, c3: real,
    d0: real, d1: real, d2: real, d3: real)
    ensures DetN(b0, b1, b2, b3, a0, a1, a2, a3, c0, c1, c2, c3, d0, d1, d2, d3)
      == -DetN(a0, a1, a2, a3, b0, b1, b2, b3, c0, c1, c2, c3, d0, d1, d2, d3)
  {}

  lemma Swap02(a0: real, a1: real, a2: real, a3: real,
    b0: real, b1: real, b2: real, b3: real,
    c0: real, c1: real, c2: real, c3: real,
    d0: real, d1: real, d2: real, d3: real)
    ensures DetN(c0, c1, c2, c3, b0, b1, b2, b3, a0, a1, a2, a3, d0, d1, d2, d3)
      == -DetN(a0, a1, a2, a3, b0, b1, b2, b3, c0, c1, c2, c3, d0, d1, d2, d3)
  {}

  lemma Swap03(a0: real, a1: real, a2: real, a3: real,
    b0: real, b1: real, b2: real, b3: real,
    c0: real, c1: real, c2: real, c3: real,
    d0: real, d1: real, d2: real, d3: real)
    ensures DetN(d0, d1, d2, d3, b0, b1, b2, b3, c0, c1, c2, c3, a0, a1, a2, a3)
      == -DetN(a0, a1, a2, a3, b0, b1, b2, b3, c0, c1, c2, c3, d0, d1, d2, d3)
  {}

  lemma Swap12(a0: real, a1: real, a2: real, a3: real,
    b0: real, b1: real, b2: real, b3: real,
    c0: real, c1: real, c2: real, c3: real,
    d0: real, d1: real, d2: real, d3: real)
    ensures DetN(a0, a1, a2, a3, c0, c1, c2, c3, b0, b1, b2, b3, d0, d1, d2, d3)
      == -DetN(a0, a1, a2, a3, b0, b1, b2, b3, c0, c1, c2, c3, d0, d1, d2, d3)
  {}

  lemma Swap13(a0: real, a1: real, a2: real, a3: real,
    b0: real, b1: real, b2: real, b3: real,
    c0: real, c1: real, c2: real, c3: real,
    d0: real, d1: real, d2: real, d3: real)
    ensures DetN(a0, a1, a2, a3, d0, d1, d2, d3, c0, c1, c2, c3, b0, b1, b2, b3)
      == -DetN(a0, a1, a2, a3, b0, b1, b2, b3, c0, c1, c2, c3, d0, d1, d2, d3)
  {}

  lemma Swap23(a0: real, a1: real, a2: real, a3: real,
    b0: real, b1: real, b2: real, b3: real,
    c0: real, c1: real, c2: real, c3: real,
    d0: real, d1: real, d2: real, d3: real)
    ensures DetN(a0, a1, a2, a3, b0, b1, b2, b3, d0, d1, d2, d3, c0, c1, c2, c3)
      == -DetN(a0, a1, a2, a3, b0, b1, b2, b3, c0, c1, c2, c3, d0, d1, d2, d3)
  {}

  lemma TransposeN(a0: real, a1: real, a2: real, a3: real,
    b0: real, b1: real, b2: real, b3: real,
    c0: real, c1: real, c2: real, c3: real,
    d0: real, d1: real, d2: real, d3: real)
    ensures DetN(a0, b0, c0, d0, a1, b1, c1, d1, a2, b2, c2, d2, a3, b3, c3, d3)
      == DetN(a0, a1, a2, a3, b0, b1, b2, b3, c0, c1, c2, c3, d0, d1, d2, d3)
  {}

  lemma Transpose3(a: real, b: real, c: real, d: real, e: real, f: real, g: real, h: real, i: real)
    ensures Det3(a, d, g, b, e, h, c, f, i) == Det3(a, b, c, d, e, f, g, h, i)
  {}

  // ---------- laws of the determinant ----------

  /** Laplace: a vector against the cofactors of row `q` is the determinant with that row
      replaced by the vector. */
  lemma Expand(m: Mat, q: nat, v: Vec)
    requires q < 4
    ensures Dot(v, Cofactors(m, q)) == Det(SetRow(m, q, v))
  {
    hide Det3, DetN;
    match q
    case 0 => Laplace0(v[0], v[1], v[2], v[3], m[4], m[5], m[6], m[7], m[8], m[9], m[10], m[11], m[12], m[13], m[14], m[15]);
    case 1 => Laplace1(m[0], m[1], m[2], m[3], v[0], v[1], v[2], v[3], m[8], m[9], m[10], m[11], m[12], m[13], m[14], m[15]);
    case 2 => Laplace2(m[0], m[1], m[2], m[3], m[4], m[5], m[6], m[7], v[0], v[1], v[2], v[3], m[12], m[13], m[14], m[15]);
    case _ => Laplace3(m[0], m[1], m[2], m[3], m[4], m[5], m[6], m[7], m[8], m[9], m[10], m[11], v[0], v[1], v[2], v[3]);
  }

  function SwapRows(m: Mat, i: nat, s: nat): Mat
    requires i < 4 && s < 4
  {
    SetRow(SetRow(m, i, Row(m, s)), s, Row(m, i))
  }

  lemma DetSwap(m: Mat, i: nat, s: nat)
    requires i < s < 4
    ensures Det(SwapRows(m, i, s)) == -Det(m)
  {
    hide DetN;
    if i == 0 {
      if s == 1 {
        Swap01(m[0], m[1], m[2], m[3], m[4], m[5], m[6], m[7], m[8], m[9], m[10], m[11], m[12], m[13], m[14], m[15]);
      } else if s == 2 {
        Swap02(m[0], m[1], m[2], m[3], m[4], m[5], m[6], m[7], m[8], m[9], m[10], m[11], m[12], m[13], m[14], m[15]);
      } else {
        Swap03(m[0], m[1], m[2], m[3], m[4], m[5], m[6], m[7], m[8], m[9], m[10], m[11], m[12], m[13], m[14], m[15]);
      }
    } else if i == 1 {
      if s == 2 {
        Swap12(m[0], m[1], m[2], m[3], m[4], m[5], m[6], m[7], m[8], m[9], m[10], m[11], m[12], m[13], m[14], m[15]);
      } else {
        Swap13(m[0], m[1], m[2], m[3], m[4], m[5], m[6], m[7], m[8], m[9], m[10], m[11], m[12], m[13], m[14], m[15]);
      }
    } else {
      Swap23(m[0], m[1], m[2], m[3], m[4], m[5], m[6], m[7], m[8], m[9], m[10], m[11], m[12], m[13], m[14], m[15]);
    }
  }

  /** With zeros below the diagonal the determinant is the product of the diagonal. */
  lemma DetTriangular(m: Mat)
    requires forall r, c :: 0 <= c < r < 4 ==> At(m, r, c) == 0.0
    ensures Det(m) == m[0] * m[5] * m[10] * m[15]
    ensures Minor(m, 3, 3) == m[0] * m[5] * m[10]
  {
    assert At(m, 1, 0) == At(m, 2, 0) == At(m, 2, 1) == At(m, 3, 0) == At(m, 3, 1) == At(m, 3, 2) == 0.0;
  }

  /** Two equal rows: the determinant is 0. */
  lemma DetEqualRows(m: Mat, i: nat, s: nat)
    requires i < 4 && s < 4 && i != s && Row(m, i) == Row(m, s)
    ensures Det(m) == 0.0
  {
    hide Det, Row, SetRow;
    SetRowSame(m, i);
    SetRowSame(m, s);
    if i < s { DetSwap(m, i, s); } else { DetSwap(m, s, i); }
  }

  /** The determinant is linear in each row. */
  lemma DetLinear(m: Mat, q: nat, u: Vec, v: Vec, t: real)
    requires q < 4
    ensures Det(SetRow(m, q, Plus(u, Scaled(v, t)))) == Det(SetRow(m, q, u)) + Det(SetRow(m, q, v)) * t
  {
    hide *;
    Expand(m, q, Plus(u, Scaled(v, t)));
    Expand(m, q, u);
    Expand(m, q, v);
    DotPlus(u, Scaled(v, t), Cofactors(m, q));
    DotScaled(v, t, Cofactors(m, q));
  }

  lemma DetTranspose(m: Mat)
    ensures Det(Transpose(m)) == Det(m)
  {
    hide DetN;
    TransposeN(m[0], m[1], m[2], m[3], m[4], m[5], m[6], m[7], m[8], m[9], m[10], m[11], m[12], m[13], m[14], m[15]);
  }

  lemma MinorTranspose(m: Mat, r: nat, c: nat)
    requires r < 4 && c < 4
    ensures Minor(Transpose(m), r, c) == Minor(m, c, r)
  {
    hide Det3;
    forall i, j | 0 <= i < 4 && 0 <= j < 4
      ensures At(Transpose(m), i, j) == At(m, j, i)
    {
      TransposeAt(m, i, j);
    }
    hide Transpose, At;
    Transpose3(
      At(m, Skip(0, c), Skip(0, r)), At(m, Skip(0, c), Skip(1, r)), At(m, Skip(0, c), Skip(2, r)),
      At(m, Skip(1, c), Skip(0, r)), At(m, Skip(1, c), Skip(1, r)), At(m, Skip(1, c), Skip(2, r)),
      At(m, Skip(2, c), Skip(0, r)), At(m, Skip(2, c), Skip(1, r)), At(m, Skip(2, c), Skip(2, r)));
  }

  // ---------- the adjugate ----------

  function Adjugate(m: Mat): Mat {
    seq(16, n requires 0 <= n < 16 => Cofactor(m, n % 4, n / 4))
  }

  lemma AdjugateCol(m: Mat, c: nat)
    requires c < 4
    ensures Col(Adjugate(m), c) == Cofactors(m, c)
  {
    hide Cofactor;
    var w := Adjugate(m);
    forall r | 0 <= r < 4
      ensures w[4 * r + c] == Cofactor(m, c, r)
    {
      assert (4 * r + c) / 4 == r && (4 * r + c) % 4 == c;
    }
  }

  lemma AdjugateRow(m: Mat, r: nat)
    requires r < 4
    ensures Row(Adjugate(m), r) == Cofactors(Transpose(m), r)
  {
    hide Minor;
    var w := Adjugate(m);
    forall c | 0 <= c < 4
      ensures w[4 * r + c] == Cofactor(Transpose(m), r, c)
    {
      assert (4 * r + c) / 4 == r && (4 * r + c) % 4 == c;
      MinorTranspose(m, r, c);
    }
  }

  function ScaledMat(m: Mat, t: real): Mat {
    seq(16, n requires 0 <= n < 16 => m[n] * t)
  }

  /** m adj(m) == det(m) I */
  lemma MulAdjugate(m: Mat)
    ensures Mul(m, Adjugate(m)) == ScaledMat(Identity(), Det(m))
  {
    hide *;
    forall r, c | 0 <= r < 4 && 0 <= c < 4
      ensures At(Mul(m, Adjugate(m)), r, c) == At(ScaledMat(Identity(), Det(m)), r, c)
    {
      MulAt(m, Adjugate(m), r, c);
      AdjugateCol(m, c);
      RowAgainst(m, r, c);
      ScaledIdentityAt(Det(m), r, c);
    }
    SameEntries(Mul(m, Adjugate(m)), ScaledMat(Identity(), Det(m)));
  }

  lemma RowAgainst(m: Mat, r: nat, q: nat)
    requires r < 4 && q < 4
    ensures Dot(Row(m, r), Cofactors(m, q)) == if r == q then Det(m) else 0.0
  {
    hide *;
    Expand(m, q, Row(m, r));
    if r == q {
      SetRowSame(m, r);
    } else {
      SetRowRow(m, q, Row(m, r), q);
      SetRowRow(m, q, Row(m, r), r);
      DetEqualRows(SetRow(m, q, Row(m, r)), r, q);
    }
  }

  lemma ScaledIdentityAt(t: real, r: nat, c: nat)
    requires r < 4 && c < 4
    ensures At(ScaledMat(Identity(), t), r, c) == if r == c then t else 0.0
  {
    IdentityAt(r, c);
    hide Identity;
  }

  /** adj(m) m == det(m) I */
  lemma AdjugateMul(m: Mat)
    ensures Mul(Adjugate(m), m) == ScaledMat(Identity(), Det(m))
  {
    hide *;
    forall r, c | 0 <= r < 4 && 0 <= c < 4
      ensures At(Mul(Adjugate(m), m), r, c) == At(ScaledMat(Identity(), Det(m)), r, c)
    {
      MulAt(Adjugate(m), m, r, c);
      AdjugateRow(m, r);
      TransposeRow(m, c);
      DotCommutes(Cofactors(Transpose(m), r), Col(m, c));
      RowAgainst(Transpose(m), c, r);
      DetTranspose(m);
      ScaledIdentityAt(Det(m), r, c);
    }
    SameEntries(Mul(Adjugate(m), m), ScaledMat(Identity(), Det(m)));
  }

  lemma TransposeRow(m: Mat, c: nat)
    requires c < 4
    ensures Row(Transpose(m), c) == Col(m, c)
  {
    TransposeAt(m, c, 0); TransposeAt(m, c, 1); TransposeAt(m, c, 2); TransposeAt(m, c, 3);
    hide Transpose, At;
  }

  lemma DotCommutes(u: Vec, v: Vec)
    ensures Dot(u, v) == Dot(v, u)
  {}

  /** The adjugate divided by the determinant. */
  function CofactorInverse(m: Mat): Mat
    requires Det(m) != 0.0
  {
    ScaledMat(Adjugate(m), 1.0 / Det(m))
  }

  lemma ScaledMatAt(m: Mat, t: real, r: nat, c: nat)
    requires r < 4 && c < 4
    ensures At(ScaledMat(m, t), r, c) == At(m, r, c) * t
  {}

  lemma ScaledMatRow(m: Mat, t: real, r: nat)
    requires r < 4
    ensures Row(ScaledMat(m, t), r) == Scaled(Row(m, r), t) && Col(ScaledMat(m, t), r) == Scaled(Col(m, r), t)
  {
    hide ScaledMat, At;
    ScaledMatAt(m, t, r, 0); ScaledMatAt(m, t, r, 1); ScaledMatAt(m, t, r, 2); ScaledMatAt(m, t, r, 3);
    ScaledMatAt(m, t, 0, r); ScaledMatAt(m, t, 1, r); ScaledMatAt(m, t, 2, r); ScaledMatAt(m, t, 3, r);
    var x, y := Row(ScaledMat(m, t), r), Scaled(Row(m, r), t);
    assert x[0] == y[0] && x[1] == y[1] && x[2] == y[2] && x[3] == y[3];
    var u, v := Col(ScaledMat(m, t), r), Scaled(Col(m, r), t);
    assert u[0] == v[0] && u[1] == v[1] && u[2] == v[2] && u[3] == v[3];
  }

  lemma MulScaledMat(a: Mat, b: Mat, t: real)
    ensures Mul(ScaledMat(a, t), b) == ScaledMat(Mul(a, b), t) && Mul(a, ScaledMat(b, t)) == ScaledMat(Mul(a, b), t)
  {
    hide *;
    var s := ScaledMat(Mul(a, b), t);
    forall r, c | 0 <= r < 4 && 0 <= c < 4
      ensures At(Mul(ScaledMat(a, t), b), r, c) == At(s, r, c)
      ensures At(Mul(a, ScaledMat(b, t)), r, c) == At(s, r, c)
    {
      MulAt(ScaledMat(a, t), b, r, c);
      MulAt(a, ScaledMat(b, t), r, c);
      MulAt(a, b, r, c);
      ScaledMatAt(Mul(a, b), t, r, c);
      ScaledMatRow(a, t, r);
      ScaledMatRow(b, t, c);
      DotScaled(Row(a, r), t, Col(b, c));
      DotScaled(Col(b, c), t, Row(a, r));
      DotCommutes(Row(a, r), Col(b, c));
      DotCommutes(Row(a, r), Scaled(Col(b, c), t));
    }
    SameEntries(Mul(ScaledMat(a, t), b), s);
    SameEntries(Mul(a, ScaledMat(b, t)), s);
  }

  lemma ScaleBack(d: real)
    requires d != 0.0
    ensures ScaledMat(ScaledMat(Identity(), d), 1.0 / d) == Identity()
  {
    hide *;
    var m := ScaledMat(ScaledMat(Identity(), d), 1.0 / d);
    forall r, c | 0 <= r < 4 && 0 <= c < 4
      ensures At(m, r, c) == At(Identity(), r, c)
    {
      ScaledMatAt(ScaledMat(Identity(), d), 1.0 / d, r, c);
      ScaledIdentityAt(d, r, c);
      IdentityAt(r, c);
      assert d * (1.0 / d) == 1.0;
    }
    SameEntries(m, Identity());
  }

  /** A non-zero determinant gives a two-sided inverse. */
  lemma CofactorInverseWorks(m: Mat)
    requires Det(m) != 0.0
    ensures Mul(CofactorInverse(m), m) == Identity() && Mul(m, CofactorInverse(m)) == Identity()
  {
    hide Mul, Det, Adjugate, Identity, ScaledMat;
    MulAdjugate(m);
    AdjugateMul(m);
    MulScaledMat(Adjugate(m), m, 1.0 / Det(m));
    MulScaledMat(m, Adjugate(m), 1.0 / Det(m));
    ScaleBack(Det(m));
  }
}
