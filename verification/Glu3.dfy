/** glu3.c: the cofactor inverse and the matrix products, over exact reals. A GLUmat4 is four
    columns in a row, so `values[r]` of `col[c]` is entry At(m, c, r) of the flat matrix. */
module Glu3 {
  import opened Basics

  import opened Matrix4
  import opened Determinant
  import FslMatrix

  /** Entry `q` of column `k` once column `i` and row `j` are gone. */
  function Left(m: Mat, i: nat, j: nat, k: nat, q: nat): real
    requires i < 4 && j < 4 && k < 3 && q < 3
  {
    At(m, Skip(k, i), Skip(q, j))
  }

  /** The falling and the rising diagonal from the top of column `c`, after `r` factors. */
  function Falling(m: Mat, i: nat, j: nat, c: nat, r: nat): real
    requires i < 4 && j < 4 && c < 3 && 1 <= r <= 3
  {
    if r == 1 then Left(m, i, j, c, 0) else Falling(m, i, j, c, r - 1) * Left(m, i, j, (c + r - 1) % 3, r - 1)
  }

  function Rising(m: Mat, i: nat, j: nat, c: nat, r: nat): real
    requires i < 4 && j < 4 && c < 3 && 1 <= r <= 3
  {
    if r == 1 then Left(m, i, j, c, 0) else Rising(m, i, j, c, r - 1) * Left(m, i, j, (4 + c - r) % 3, r - 1)
  }

  function Diagonals(m: Mat, i: nat, j: nat, c: nat): real
    requires i < 4 && j < 4 && c <= 3
  {
    if c == 0 then 0.0 else Diagonals(m, i, j, c - 1) + (Falling(m, i, j, c - 1, 3) - Rising(m, i, j, c - 1, 3))
  }

  /** The rule of Sarrus. */
  lemma Sarrus(a: real, b: real, c: real, d: real, e: real, f: real, g: real, h: real, i: real)
    ensures 0.0 + (a * e * i - a * h * f) + (d * h * c - d * b * i) + (g * b * f - g * e * c) == Det3(a, b, c, d, e, f, g, h, i)
  {}

  lemma FallingIs(m: Mat, i: nat, j: nat, c: nat)
    requires i < 4 && j < 4 && c < 3
    ensures Falling(m, i, j, c, 3) == Left(m, i, j, c, 0) * Left(m, i, j, (c + 1) % 3, 1) * Left(m, i, j, (c + 2) % 3, 2)
  {
    hide Left;
    assert Falling(m, i, j, c, 2) == Left(m, i, j, c, 0) * Left(m, i, j, (c + 1) % 3, 1);
  }

  lemma RisingIs(m: Mat, i: nat, j: nat, c: nat)
    requires i < 4 && j < 4 && c < 3
    ensures Rising(m, i, j, c, 3) == Left(m, i, j, c, 0) * Left(m, i, j, (c + 2) % 3, 1) * Left(m, i, j, (c + 1) % 3, 2)
  {
    hide Left;
    assert Rising(m, i, j, c, 2) == Left(m, i, j, c, 0) * Left(m, i, j, (c + 2) % 3, 1);
  }

  lemma DiagonalsAreMinor(m: Mat, i: nat, j: nat)
    requires i < 4 && j < 4
    ensures Diagonals(m, i, j, 3) == Minor(m, i, j)
  {
    hide *;
    NoDiagonals(m, i, j);
    DiagonalsStep(m, i, j, 0); DiagonalsStep(m, i, j, 1); DiagonalsStep(m, i, j, 2);
    FallingIs(m, i, j, 0); FallingIs(m, i, j, 1); FallingIs(m, i, j, 2);
    RisingIs(m, i, j, 0); RisingIs(m, i, j, 1); RisingIs(m, i, j, 2);
    Sarrus(Left(m, i, j, 0, 0), Left(m, i, j, 0, 1), Left(m, i, j, 0, 2),
           Left(m, i, j, 1, 0), Left(m, i, j, 1, 1), Left(m, i, j, 1, 2),
           Left(m, i, j, 2, 0), Left(m, i, j, 2, 1), Left(m, i, j, 2, 2));
    MinorIs(m, i, j);
  }

  lemma MinorIs(m: Mat, i: nat, j: nat)
    requires i < 4 && j < 4
    ensures Minor(m, i, j) == Det3(
      Left(m, i, j, 0, 0), Left(m, i, j, 0, 1), Left(m, i, j, 0, 2),
      Left(m, i, j, 1, 0), Left(m, i, j, 1, 1), Left(m, i, j, 1, 2),
      Left(m, i, j, 2, 0), Left(m, i, j, 2, 1), Left(m, i, j, 2, 2))
  {
    hide Det3, At, Skip;
  }

  // ---------- det3 ----------

  /** `v` with the entries from `j` on, but below `r`, moved up by one. */
  function Closed(v: Vec, j: nat, r: nat): Vec
    requires r <= 3 || r == j
  {
    seq(4, q requires 0 <= q < 4 => if j <= q < r then v[q + 1] else v[q])
  }

  lemma ClosedStep(v: Vec, j: nat, r: nat)
    requires j <= r < 3
    ensures Closed(v, j, r)[r := Closed(v, j, r)[r + 1]] == Closed(v, j, r + 1)
  {}

  lemma ClosedAt(m: Mat, i: nat, j: nat, k: nat, q: nat)
    requires i < 4 && j < 4 && k < 3 && q < 3
    ensures Closed(Row(m, Skip(k, i)), j, if j < 3 then 3 else j)[q] == Left(m, i, j, k, q)
  {}

  /** The columns other than `i`, in order, stored twice. */
  method CopyColumns(m: array<real>, i: nat, col: array<Vec>)
    requires m.Length == 16 && i < 4 && col.Length == 6
    modifies col
    ensures forall k :: 0 <= k < 3 ==> col[k] == Row(m[..], Skip(k, i)) && col[k + 3] == col[k]
  {
    hide Row;
    for c := 0 to 4
      invariant forall k :: 0 <= k < 3 && Skip(k, i) < c ==> (col[k] == Row(m[..], Skip(k, i)) && col[k + 3] == col[k])
    {
      if c < i {
        col[c + 0] := Row(m[..], c);
        col[c + 3] := Row(m[..], c);
      } else if c > i {
        col[c - 1] := Row(m[..], c);
        col[c + 2] := Row(m[..], c);
      }
    }
  }

  /** Row `j` goes; the rows below it move up. */
  method DropRow(j: nat, col: array<Vec>)
    requires j < 4 && col.Length == 6
    modifies col
    ensures forall k :: 0 <= k < 6 ==> col[k] == Closed(old(col[k]), j, if j < 3 then 3 else j)
  {
    hide *;
    var r := j;
    ghost var w := col[..];
    forall k | 0 <= k < 6 ensures w[k] == Closed(w[k], j, j) { NothingClosed(w[k], j); }
    while r < 3
      invariant j <= r && (r <= 3 || r == j)
      invariant forall k :: 0 <= k < 6 ==> col[k] == Closed(w[k], j, r)
    {
      ClosedStep(w[0], j, r); ClosedStep(w[1], j, r); ClosedStep(w[2], j, r);
      ClosedStep(w[3], j, r); ClosedStep(w[4], j, r); ClosedStep(w[5], j, r);
      col[0] := col[0][r := col[0][r + 1]];
      col[1] := col[1][r := col[1][r + 1]];
      col[2] := col[2][r := col[2][r + 1]];
      col[3] := col[3][r := col[3][r + 1]];
      col[4] := col[4][r := col[4][r + 1]];
      col[5] := col[5][r := col[5][r + 1]];
      r := r + 1;
    }
  }

  lemma NothingClosed(v: Vec, j: nat)
    ensures Closed(v, j, j) == v
  {}

  /** det3: the minor without column `i` and row `j`. */
  method Determinant3(m: array<real>, i: nat, j: nat) returns (det: real)
    requires m.Length == 16 && i < 4 && j < 4
    ensures det == Minor(m[..], i, j)
  {
    hide Row, Closed, Left, Diagonals, Falling, Rising, Minor, At;
    var col := new Vec[6](_ => [0.0, 0.0, 0.0, 0.0]);
    CopyColumns(m, i, col);
    DropRow(j, col);
    ghost var g: Mat := m[..];
    ghost var w := col[..];
    forall k, q | 0 <= k < 6 && 0 <= q < 3
      ensures w[k][q] == Left(g, i, j, if k < 3 then k else k - 3, q)
    {
      ClosedAt(g, i, j, if k < 3 then k else k - 3, q);
    }
    det := 0.0;
    NoDiagonals(g, i, j);
    for c := 0 to 3
      invariant col[..] == w && det == Diagonals(g, i, j, c)
    {
      assert w[c] == col[c];
      var diag1, diag2 := col[c][0], col[c][0];
      DiagonalStart(g, i, j, c);
      for r := 1 to 3
        invariant col[..] == w && diag1 == Falling(g, i, j, c, r) && diag2 == Rising(g, i, j, c, r)
      {
        DiagonalStep(g, i, j, c, r);
        assert w[c + r] == col[c + r] && w[3 + c - r] == col[3 + c - r];
        diag1 := diag1 * col[c + r][r];
        diag2 := diag2 * col[3 + c - r][r];
      }
      det := det + (diag1 - diag2);
      DiagonalsStep(g, i, j, c);
    }
    DiagonalsAreMinor(g, i, j);
  }

  lemma NoDiagonals(m: Mat, i: nat, j: nat)
    requires i < 4 && j < 4
    ensures Diagonals(m, i, j, 0) == 0.0
  {}

  lemma DiagonalsStep(m: Mat, i: nat, j: nat, c: nat)
    requires i < 4 && j < 4 && c < 3
    ensures Diagonals(m, i, j, c + 1) == Diagonals(m, i, j, c) + (Falling(m, i, j, c, 3) - Rising(m, i, j, c, 3))
  {}

  lemma DiagonalStart(m: Mat, i: nat, j: nat, c: nat)
    requires i < 4 && j < 4 && c < 3
    ensures Falling(m, i, j, c, 1) == Left(m, i, j, c, 0) && Rising(m, i, j, c, 1) == Left(m, i, j, c, 0)
  {}

  /** Six stored columns stand for three: no remainder is needed in the addressing. */
  lemma DiagonalStep(m: Mat, i: nat, j: nat, c: nat, r: nat)
    requires i < 4 && j < 4 && c < 3 && 1 <= r < 3
    ensures Falling(m, i, j, c, r + 1) == Falling(m, i, j, c, r) * Left(m, i, j, if c + r < 3 then c + r else c + r - 3, r)
    ensures Rising(m, i, j, c, r + 1) == Rising(m, i, j, c, r) * Left(m, i, j, if c >= r then c - r else 3 + c - r, r)
  {
    hide Left;
  }

  // ---------- gluDeterminant4_4m ----------

  /** The first `c` terms of the expansion along row 3. */
  function Expansion(m: Mat, c: nat): real
    requires c <= 4
  {
    if c == 0 then 0.0 else Expansion(m, c - 1) + At(m, c - 1, 3) * Cofactor(m, c - 1, 3)
  }

  lemma ExpansionIsDot(m: Mat)
    ensures Expansion(m, 4) == Dot(Col(m, 3), Cofactors(Transpose(m), 3))
  {
    hide Minor, At, Transpose;
    MinorTranspose(m, 3, 0); MinorTranspose(m, 3, 1); MinorTranspose(m, 3, 2); MinorTranspose(m, 3, 3);
    FourTerms(m);
  }

  lemma FourTerms(m: Mat)
    ensures Expansion(m, 4) == At(m, 0, 3) * Cofactor(m, 0, 3) + At(m, 1, 3) * Cofactor(m, 1, 3)
                             + At(m, 2, 3) * Cofactor(m, 2, 3) + At(m, 3, 3) * Cofactor(m, 3, 3)
  {
    hide Cofactor, At;
    assert Expansion(m, 1) == At(m, 0, 3) * Cofactor(m, 0, 3);
    assert Expansion(m, 2) == Expansion(m, 1) + At(m, 1, 3) * Cofactor(m, 1, 3);
    assert Expansion(m, 3) == Expansion(m, 2) + At(m, 2, 3) * Cofactor(m, 2, 3);
  }

  lemma ExpansionIsDet(m: Mat)
    ensures Expansion(m, 4) == Det(m)
  {
    hide *;
    ExpansionIsDot(m);
    TransposeRow(m, 3);
    Expand(Transpose(m), 3, Row(Transpose(m), 3));
    SetRowSame(Transpose(m), 3);
    DetTranspose(m);
  }

  /** The sign test of the source: the parities of `c` and `r` differ. */
  function Sign(c: nat, r: nat): real {
    if c % 2 != r % 2 then -1.0 else 1.0
  }

  lemma SignedBy(c: nat, r: nat, x: real)
    ensures Sign(c, r) * x == Signed(c, r, x)
  {}

  /** gluDeterminant4_4m; the terms it skips are zero. */
  method Determinant4(m: array<real>) returns (det: real)
    requires m.Length == 16
    ensures det == Det(m[..])
  {
    hide Minor, Det, Sign, Signed;
    ghost var g: Mat := m[..];
    det := 0.0;
    for c := 0 to 4
      invariant det == Expansion(g, c)
    {
      if m[4 * c + 3] != 0.0 {
        var sign := Sign(c, 3);
        var d := Determinant3(m, c, 3);
        SignedBy(c, 3, d);
        Reorder(sign, m[4 * c + 3], d);
        det := det + sign * m[4 * c + 3] * d;
      }
    }
    ExpansionIsDet(g);
  }

  lemma Reorder(s: real, x: real, d: real)
    ensures s * x * d == x * (s * d)
  {}

  // ---------- gluInverse4_4m ----------

  /** What gluInverse4_4m returns is what Gauss-Jordan elimination returns. */
  lemma SameAsElimination(m: Mat)
    ensures FslMatrix.Inverse(m) == if Det(m) == 0.0 then None else Some(CofactorInverse(m))
  {
    hide *;
    FslMatrix.InverseExact(m);
    if FslMatrix.Inverse(m).Some? { FslMatrix.InverseCorrect(m); }
  }

  /** Number `n` of the result: the cofactor of the transposed place, scaled. */
  function Entry(m: Mat, t: real, n: nat): real
    requires n < 16
  {
    Cofactor(m, n % 4, n / 4) * t
  }

  /** The double loop of gluInverse4_4m. */
  method FillInverse(result: array<real>, m: array<real>, inv_det: real)
    requires result.Length == m.Length == 16 && result != m
    modifies result
    ensures forall n :: 0 <= n < 16 ==> result[n] == Entry(m[..], inv_det, n)
  {
    hide *;
    ghost var g: Mat := m[..];
    for c := 0 to 4
      invariant forall n :: 0 <= n < 16 && n % 4 < c ==> result[n] == Entry(g, inv_det, n)
    {
      for r := 0 to 4
        invariant forall n :: 0 <= n < 16 && (n % 4 < c || (n % 4 == c && n / 4 < r)) ==> result[n] == Entry(g, inv_det, n)
      {
        var sign := Sign(c, r);
        var d := Determinant3(m, c, r);
        CofactorBy(g, c, r, inv_det);
        result[4 * r + c] := sign * inv_det * d;
      }
    }
  }

  /** gluInverse4_4m. It fails exactly on matrices without inverse, and leaves `result` alone then. */
  method Inverse4(result: array<real>, m: array<real>) returns (ok: bool)
    requires result.Length == m.Length == 16 && result != m
    modifies result
    ensures ok <==> Invertible(m[..])
    ensures ok ==> Some(result[..]) == FslMatrix.Inverse(m[..])
    ensures ok ==> Mul(result[..], m[..]) == Identity() && Mul(m[..], result[..]) == Identity()
    ensures !ok ==> result[..] == old(result[..])
  {
    hide *;
    ghost var g: Mat := m[..];
    SameAsElimination(g);
    FslMatrix.InverseExact(g);
    var det := Determinant4(m);
    if det == 0.0 { return false; }
    FillInverse(result, m, 1.0 / det);
    EntriesOfInverse(g, result[..]);
    CofactorInverseWorks(g);
    ok := true;
  }

  lemma CofactorBy(m: Mat, c: nat, r: nat, t: real)
    requires c < 4 && r < 4
    ensures Sign(c, r) * t * Minor(m, c, r) == Entry(m, t, 4 * r + c)
  {
    hide Minor;
    assert (4 * r + c) / 4 == r && (4 * r + c) % 4 == c;
  }

  lemma EntriesOfInverse(m: Mat, w: Mat)
    requires Det(m) != 0.0
    requires forall n :: 0 <= n < 16 ==> w[n] == Entry(m, 1.0 / Det(m), n)
    ensures w == CofactorInverse(m)
  {
    hide Det, Cofactor;
    assert forall n :: 0 <= n < 16 ==> w[n] == CofactorInverse(m)[n];
  }

  // ---------- gluMult4m_4v, gluMult4m_4m ----------

  /** The sum of the rows of `m` weighted by `v`, added in the order of the source. */
  lemma WeightedRows(v: Vec, m: Mat)
    ensures VecMul(v, m) == Plus(Plus(Scaled(Row(m, 0), v[0]), Scaled(Row(m, 1), v[1])),
                                 Plus(Scaled(Row(m, 2), v[2]), Scaled(Row(m, 3), v[3])))
  {
    var a, b, c, d := Row(m, 0), Row(m, 1), Row(m, 2), Row(m, 3);
    Combine(v, a, b, c, d, 0); Combine(v, a, b, c, d, 1); Combine(v, a, b, c, d, 2); Combine(v, a, b, c, d, 3);
    hide Dot, Plus, Scaled;
    assert Pick(a, b, c, d, 0) == Col(m, 0) && Pick(a, b, c, d, 1) == Col(m, 1);
    assert Pick(a, b, c, d, 2) == Col(m, 2) && Pick(a, b, c, d, 3) == Col(m, 3);
  }

  /** gluMult4m_4v. `result` may be `v`: the sums are formed before it is written. */
  method MultMatVec(result: array<real>, m: array<real>, v: array<real>)
    requires m.Length == 16 && v.Length == result.Length == 4 && result != m
    modifies result
    ensures result[..] == VecMul(old(v[..]), m[..])
  {
    hide *;
    ghost var g: Mat, w: Vec := m[..], v[..];
    var temp := new Vec[6](_ => [0.0, 0.0, 0.0, 0.0]);
    for i := 0 to 4
      invariant v[..] == w && m[..] == g
      invariant forall k :: 0 <= k < i ==> temp[k] == Scaled(Row(g, k), w[k])
    {
      temp[i] := Scaled(Row(m[..], i), v[i]);
    }
    WeightedRows(w, g);
    assert temp[0] == Scaled(Row(g, 0), w[0]) && temp[1] == Scaled(Row(g, 1), w[1]);
    assert temp[2] == Scaled(Row(g, 2), w[2]) && temp[3] == Scaled(Row(g, 3), w[3]);
    temp[4] := Plus(temp[0], temp[1]);
    temp[5] := Plus(temp[2], temp[3]);
    var sum := Plus(temp[4], temp[5]);
    assert sum == VecMul(w, g);
    forall q | 0 <= q < 4 { result[q] := sum[q]; }
    assert result[..] == sum && m[..] == g;
  }

  /** gluMult4m_4m: the columns of `m2` through `m1`. With columns stored in a row, that is
      the flat product the other way round. `result` may be `m1` or `m2`. */
  method MultMatMat(result: array<real>, m1: array<real>, m2: array<real>)
    requires result.Length == m1.Length == m2.Length == 16
    modifies result
    ensures result[..] == Mul(old(m2[..]), old(m1[..]))
  {
    hide *;
    ghost var a: Mat, b: Mat := m1[..], m2[..];
    var temp := new Vec[4](_ => [0.0, 0.0, 0.0, 0.0]);
    for i := 0 to 4
      invariant m1[..] == a && m2[..] == b
      invariant forall c :: 0 <= c < i ==> temp[c] == VecMul(Row(b, c), a)
    {
      var column := Row(m2[..], i);
      var from, to := new real[4](q requires 0 <= q < 4 => column[q]), new real[4];
      assert from[..] == column;
      MultMatVec(to, m1, from);
      temp[i] := to[..];
    }
    forall n | 0 <= n < 16 { result[n] := temp[n / 4][n % 4]; }
    RowsOfProduct(b, a, temp[..], result[..]);
  }

  lemma RowsOfProduct(b: Mat, a: Mat, rows: seq<Vec>, w: Mat)
    requires |rows| == 4 && (forall c :: 0 <= c < 4 ==> rows[c] == VecMul(Row(b, c), a))
    requires forall n :: 0 <= n < 16 ==> w[n] == rows[n / 4][n % 4]
    ensures w == Mul(b, a)
  {
    hide Mul, VecMul;
    forall c | 0 <= c < 4
      ensures Row(w, c) == Row(Mul(b, a), c)
    {
      MulRow(b, a, c);
      forall q | 0 <= q < 4 ensures w[4 * c + q] == rows[c][q] {
        assert (4 * c + q) / 4 == c && (4 * c + q) % 4 == q;
      }
      FourEntries(rows[c]);
    }
    SameRows(w, Mul(b, a));
  }
}
