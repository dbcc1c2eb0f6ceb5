/** fslutil.c: matrix products and fslUnProject, over exact reals. Points are row vectors. */
module FslProject {
  import opened Basics

  import opened Matrix4
  import opened FslMatrix

  /** Four of the sixteen assignments. */
  method MultRow(matC: array<real>, matA: array<real>, matB: array<real>, r: nat)
    requires matA.Length == matB.Length == matC.Length == 16 && matC != matA && matC != matB && r < 4
    modifies matC
    ensures Row(matC[..], r) == VecMul(Row(matA[..], r), matB[..])
    ensures forall n :: 0 <= n < 16 && !(4 * r <= n < 4 * r + 4) ==> matC[n] == old(matC[n])
  {
    matC[4 * r + 0] := matA[4 * r] * matB[0] + matA[4 * r + 1] * matB[4] + matA[4 * r + 2] * matB[8] + matA[4 * r + 3] * matB[12];
    matC[4 * r + 1] := matA[4 * r] * matB[1] + matA[4 * r + 1] * matB[5] + matA[4 * r + 2] * matB[9] + matA[4 * r + 3] * matB[13];
    matC[4 * r + 2] := matA[4 * r] * matB[2] + matA[4 * r + 1] * matB[6] + matA[4 * r + 2] * matB[10] + matA[4 * r + 3] * matB[14];
    matC[4 * r + 3] := matA[4 * r] * matB[3] + matA[4 * r + 1] * matB[7] + matA[4 * r + 2] * matB[11] + matA[4 * r + 3] * matB[15];
    ghost var x, y := Row(matC[..], r), VecMul(Row(matA[..], r), matB[..]);
    assert x[0] == y[0] && x[1] == y[1] && x[2] == y[2] && x[3] == y[3];
  }

  /** fslMultMatrix4x4, a row at a time. */
  method MultMatrix4x4(matC: array<real>, matA: array<real>, matB: array<real>)
    requires matA.Length == matB.Length == matC.Length == 16 && matC != matA && matC != matB
    modifies matC
    ensures matC[..] == Mul(matA[..], matB[..])
  {
    hide Mul, VecMul;
    ghost var a: Mat, b: Mat := matA[..], matB[..];
    MultRow(matC, matA, matB, 0);
    MultRow(matC, matA, matB, 1);
    MultRow(matC, matA, matB, 2);
    MultRow(matC, matA, matB, 3);
    MulRow(a, b, 0); MulRow(a, b, 1); MulRow(a, b, 2); MulRow(a, b, 3);
    SameRows(matC[..], Mul(a, b));
  }

  /** fslMultMatrix4x4Vec4x1. */
  method MultMatrix4x4Vec4x1(matA: array<real>, vecA: array<real>, vecB: array<real>)
    requires matA.Length == 16 && vecA.Length == vecB.Length == 4 && vecB != vecA && vecB != matA
    modifies vecB
    ensures vecB[..] == VecMul(vecA[..], matA[..])
  {
    for i := 0 to 4
      invariant forall c :: 0 <= c < i ==> vecB[c] == Dot(vecA[..], Col(matA[..], c))
    {
      vecB[i] := vecA[0] * matA[i] + vecA[1] * matA[4 + i] + vecA[2] * matA[2 * 4 + i] + vecA[3] * matA[3 * 4 + i];
    }
  }

  datatype Point = Point(x: real, y: real, z: real)

  /** Origin and size of the viewport. */
  datatype Viewport = Viewport(x: int, y: int, width: int, height: int) {
    predicate Valid() { width != 0 && height != 0 }
  }

  /** A window point in normalized device coordinates: x and y through the viewport, then
      all three from [0, 1] to [-1, 1]. */
  function Normalized(win: Point, vp: Viewport): Vec
    requires vp.Valid()
  {
    [(win.x - vp.x as real) / vp.width as real * 2.0 - 1.0,
     (win.y - vp.y as real) / vp.height as real * 2.0 - 1.0,
     win.z * 2.0 - 1.0,
     1.0]
  }

  function Homogeneous(p: Point): Vec {
    [p.x, p.y, p.z, 1.0]
  }

  function UnProjected(win: Point, model: Mat, proj: Mat, vp: Viewport): Option<Point>
    requires vp.Valid()
  {
    match Inverse(Mul(model, proj))
    case None => None
    case Some(inverse) =>
      var out := VecMul(Normalized(win, vp), inverse);
      if out[3] == 0.0 then None else Some(Point(out[0] / out[3], out[1] / out[3], out[2] / out[3]))
  }

  /** The window point in place: through the viewport, then from [0, 1] to [-1, 1]. */
  method MapToClip(v: array<real>, vp: Viewport)
    requires v.Length == 4 && v[3] == 1.0 && vp.Valid()
    modifies v
    ensures v[..] == Normalized(Point(old(v[0]), old(v[1]), old(v[2])), vp)
  {
    v[0] := (v[0] - vp.x as real) / vp.width as real;
    v[1] := (v[1] - vp.y as real) / vp.height as real;
    v[0] := v[0] * 2.0 - 1.0;
    v[1] := v[1] * 2.0 - 1.0;
    v[2] := v[2] * 2.0 - 1.0;
  }

  /** fslUnProject. */
  method UnProject(win: Point, modelMatrix: array<real>, projMatrix: array<real>, vp: Viewport) returns (ok: bool, obj: Point)
    requires modelMatrix.Length == projMatrix.Length == 16 && vp.Valid()
    ensures UnProjected(win, modelMatrix[..], projMatrix[..], vp) == if ok then Some(obj) else None
  {
    hide Mul, VecMul, Inverse, Normalized;
    obj := Point(0.0, 0.0, 0.0);
    var finalMatrix, finalMatrixTmp := new real[16], new real[16];
    MultMatrix4x4(finalMatrixTmp, modelMatrix, projMatrix);
    var inverted := InvertMatrix4x4(finalMatrixTmp, finalMatrix);
    if !inverted { return false, obj; }
    var v, out := new real[4], new real[4];
    v[0], v[1], v[2], v[3] := win.x, win.y, win.z, 1.0;
    MapToClip(v, vp);
    MultMatrix4x4Vec4x1(finalMatrix, v, out);
    ghost var o: Vec := out[..];
    assert o == VecMul(Normalized(win, vp), Inverse(Mul(modelMatrix[..], projMatrix[..])).value);
    if out[3] == 0.0 { return false, obj; }
    out[0] := out[0] / out[3];
    out[1] := out[1] / out[3];
    out[2] := out[2] / out[3];
    return true, Point(out[0], out[1], out[2]);
  }

  // ---------- projection and back ----------

  function Clip(obj: Point, model: Mat, proj: Mat): Vec {
    VecMul(Homogeneous(obj), Mul(model, proj))
  }

  /** The forward mapping: perspective division, then the viewport. */
  function Projected(obj: Point, model: Mat, proj: Mat, vp: Viewport): Point
    requires vp.Valid() && Clip(obj, model, proj)[3] != 0.0
  {
    var c := Clip(obj, model, proj);
    Point((c[0] / c[3] + 1.0) / 2.0 * vp.width as real + vp.x as real,
          (c[1] / c[3] + 1.0) / 2.0 * vp.height as real + vp.y as real,
          (c[2] / c[3] + 1.0) / 2.0)
  }

  lemma TimesOver(x: real, s: real)
    requires s != 0.0
    ensures (x * s) / s == x && (x / s) * s == x
  {}

  lemma ViewportBack(a: real, o: real, s: real)
    requires s != 0.0
    ensures ((a + 1.0) / 2.0 * s + o - o) / s * 2.0 - 1.0 == a
  {
    var x, y := (a + 1.0) / 2.0, (a + 1.0) / 2.0 * s + o - o;
    TimesOver(x, s);
    assert y == x * s;
    assert y / s == x;
  }

  lemma ViewportForth(a: real, o: real, s: real)
    requires s != 0.0
    ensures ((a - o) / s * 2.0 - 1.0 + 1.0) / 2.0 * s + o == a
  {
    TimesOver(a - o, s);
  }

  /** Scaling a homogeneous point does not move it. */
  lemma QuotientBack(p: Point, t: real)
    requires t != 0.0
    ensures var o := Scaled(Homogeneous(p), t); o[3] != 0.0 && Point(o[0] / o[3], o[1] / o[3], o[2] / o[3]) == p
  {
    TimesOver(p.x, t); TimesOver(p.y, t); TimesOver(p.z, t);
  }

  lemma NormalizedOfProjected(obj: Point, model: Mat, proj: Mat, vp: Viewport)
    requires vp.Valid() && Clip(obj, model, proj)[3] != 0.0
    ensures Normalized(Projected(obj, model, proj, vp), vp)
         == Scaled(Clip(obj, model, proj), 1.0 / Clip(obj, model, proj)[3])
  {
    hide Mul, VecMul, Clip;
    var c := Clip(obj, model, proj);
    var w := c[3];
    DivideNumbers(c[0], w); DivideNumbers(c[1], w); DivideNumbers(c[2], w);
    ViewportBack(c[0] / w, vp.x as real, vp.width as real);
    ViewportBack(c[1] / w, vp.y as real, vp.height as real);
    TimesOver(1.0, w);
    var n, s := Normalized(Projected(obj, model, proj, vp), vp), Scaled(c, 1.0 / w);
    assert n[0] == s[0] && n[1] == s[1] && n[2] == s[2] && n[3] == s[3];
  }

  /** Un-projecting a projected point gives the point back. */
  lemma UnProjectUndoes(obj: Point, model: Mat, proj: Mat, vp: Viewport)
    requires vp.Valid() && Invertible(Mul(model, proj)) && Clip(obj, model, proj)[3] != 0.0
    ensures UnProjected(Projected(obj, model, proj, vp), model, proj, vp) == Some(obj)
  {
    hide Mul, VecMul, Inverse, Projected, Normalized, Identity, Invertible, Homogeneous, Scaled;
    var m, h := Mul(model, proj), Homogeneous(obj);
    var c := Clip(obj, model, proj);
    InverseExact(m);
    InverseCorrect(m);
    var inverse := Inverse(m).value;
    NormalizedOfProjected(obj, model, proj, vp);
    VecMulScaled(c, 1.0 / c[3], inverse);
    VecMulAssoc(h, m, inverse);
    VecMulIdentity(h);
    TimesOver(1.0, c[3]);
    QuotientBack(obj, 1.0 / c[3]);
  }

  /** The homogeneous form of a quotient is the vector scaled. */
  lemma HomogeneousQuotient(o: Vec)
    requires o[3] != 0.0
    ensures Homogeneous(Point(o[0] / o[3], o[1] / o[3], o[2] / o[3])) == Scaled(o, 1.0 / o[3])
  {
    DivideNumbers(o[0], o[3]); DivideNumbers(o[1], o[3]); DivideNumbers(o[2], o[3]);
    TimesOver(1.0, o[3]);
    var x, y := Homogeneous(Point(o[0] / o[3], o[1] / o[3], o[2] / o[3])), Scaled(o, 1.0 / o[3]);
    assert x[0] == y[0] && x[1] == y[1] && x[2] == y[2] && x[3] == y[3];
  }

  /** The viewport takes a scaled normalized point back to the window point. */
  lemma ProjectedBack(obj: Point, model: Mat, proj: Mat, win: Point, vp: Viewport, t: real)
    requires vp.Valid() && t != 0.0 && Clip(obj, model, proj) == Scaled(Normalized(win, vp), t)
    ensures Clip(obj, model, proj)[3] != 0.0 && Projected(obj, model, proj, vp) == win
  {
    hide Mul, VecMul, Clip;
    var n := Normalized(win, vp);
    TimesOver(n[0], t); TimesOver(n[1], t); TimesOver(n[2], t);
    ViewportForth(win.x, vp.x as real, vp.width as real);
    ViewportForth(win.y, vp.y as real, vp.height as real);
  }

  /** What fslUnProject returns projects onto the window point it was given. */
  lemma ProjectUndoes(win: Point, model: Mat, proj: Mat, vp: Viewport)
    requires vp.Valid() && UnProjected(win, model, proj, vp).Some?
    ensures Invertible(Mul(model, proj))
    ensures var obj := UnProjected(win, model, proj, vp).value;
            Clip(obj, model, proj)[3] != 0.0 && Projected(obj, model, proj, vp) == win
  {
    hide Mul, VecMul, Inverse, Projected, Normalized, Identity, Invertible, Homogeneous;
    var m, n := Mul(model, proj), Normalized(win, vp);
    InverseExact(m);
    InverseCorrect(m);
    var inverse := Inverse(m).value;
    var out := VecMul(n, inverse);
    HomogeneousQuotient(out);
    VecMulScaled(out, 1.0 / out[3], m);
    VecMulAssoc(n, inverse, m);
    VecMulIdentity(n);
    TimesOver(1.0, out[3]);
    ProjectedBack(UnProjected(win, model, proj, vp).value, model, proj, win, vp, 1.0 / out[3]);
  }

  /** fslUnProject returns a point exactly when that point projects onto the window point
      through an invertible transformation. */
  lemma UnProjectExact(win: Point, obj: Point, model: Mat, proj: Mat, vp: Viewport)
    requires vp.Valid()
    ensures UnProjected(win, model, proj, vp) == Some(obj)
       <==> Invertible(Mul(model, proj)) && Clip(obj, model, proj)[3] != 0.0 && Projected(obj, model, proj, vp) == win
  {
    hide *;
    if UnProjected(win, model, proj, vp) == Some(obj) {
      ProjectUndoes(win, model, proj, vp);
    }
    if Invertible(Mul(model, proj)) && Clip(obj, model, proj)[3] != 0.0 && Projected(obj, model, proj, vp) == win {
      UnProjectUndoes(obj, model, proj, vp);
    }
  }

  // ---------- the same in numbers ----------

  lemma ThroughModelFirst(h: Vec, model: Mat, proj: Mat)
    ensures VecMul(h, Mul(model, proj)) == VecMul(VecMul(h, model), proj)
  {
    VecMulAssoc(h, model, proj);
  }

  /** Division and viewport on one coordinate, without dividing. */
  lemma ViewportExactly(a: real, w: real, size: real, origin: real, x: real)
    requires w != 0.0
    ensures (a / w + 1.0) / 2.0 * size + origin == x <==> (a + w) * size == 2.0 * (x - origin) * w
  {
    TimesOver(a, w);
    var q := a / w;
    assert q * w == a;
    var l := (q + 1.0) / 2.0 * size;
    ScaledBack(q, w, size, a);
    assert l + origin == x <==> l == x - origin;
    if l == x - origin { assert 2.0 * l * w == 2.0 * (x - origin) * w; }
    if 2.0 * l * w == 2.0 * (x - origin) * w { TimesOver(2.0 * l, w); TimesOver(2.0 * (x - origin), w); }
  }

  lemma ScaledBack(q: real, w: real, size: real, a: real)
    requires q * w == a
    ensures 2.0 * ((q + 1.0) / 2.0 * size) * w == (a + w) * size
  {
    assert 2.0 * ((q + 1.0) / 2.0 * size) == (q + 1.0) * size;
    assert (q + 1.0) * size * w == (q * w + w) * size;
  }

  /** fslUnProject finds the object point whose image, model matrix first, projection second,
      sits at the window point: the viewport at [0, 1] across, and depth from 0 to 1. */
  lemma UnProjectInNumbers(win: Point, obj: Point, model: Mat, proj: Mat, vp: Viewport)
    requires vp.Valid()
    ensures var c := VecMul(VecMul([obj.x, obj.y, obj.z, 1.0], model), proj);
      UnProjected(win, model, proj, vp) == Some(obj) <==>
        (&& Invertible(Mul(model, proj)) && c[3] != 0.0
         && (c[0] + c[3]) * vp.width as real == 2.0 * (win.x - vp.x as real) * c[3]
         && (c[1] + c[3]) * vp.height as real == 2.0 * (win.y - vp.y as real) * c[3]
         && c[2] + c[3] == 2.0 * win.z * c[3])
  {
    hide Mul, VecMul, UnProjected, Invertible;
    UnProjectExact(win, obj, model, proj, vp);
    ThroughModelFirst(Homogeneous(obj), model, proj);
    var c := Clip(obj, model, proj);
    if c[3] != 0.0 {
      ViewportExactly(c[0], c[3], vp.width as real, vp.x as real, win.x);
      ViewportExactly(c[1], c[3], vp.height as real, vp.y as real, win.y);
      ViewportExactly(c[2], c[3], 1.0, 0.0, win.z);
    }
  }
}
