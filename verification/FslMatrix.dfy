/** fslutil.c: Gauss-Jordan inversion, over exact reals. */
module FslMatrix {
  import opened Basics

  import opened Matrix4
  import opened Determinant

  // ---------- row operations ----------

  function Quotient(v: Vec, t: real): Vec
    requires t != 0.0
  {
    [v[0] / t, v[1] / t, v[2] / t, v[3] / t]
  }

  function Less(x: real, y: real, t: real): real {
    x - y * t
  }

  function Minus(u: Vec, v: Vec, t: real): Vec {
    [Less(u[0], v[0], t), Less(u[1], v[1], t), Less(u[2], v[2], t), Less(u[3], v[3], t)]
  }

  function DivideRow(m: Mat, i: nat, t: real): Mat
    requires i < 4 && t != 0.0
  {
    SetRow(m, i, Quotient(Row(m, i), t))
  }

  function SubtractRow(m: Mat, i: nat, j: nat, t: real): Mat
    requires i < 4 && j < 4
  {
    SetRow(m, j, Minus(Row(m, j), Row(m, i), t))
  }

  function Abs(x: real): real {
    if x < 0.0 then -x else x
  }

  // ---------- the algorithm as a function ----------

  /** `temp` and `inverse` of the source. */
  datatype State = State(temp: Mat, inverse: Mat)

  /** The row the pivot search of column `i` ends with, after looking at rows below `j`:
      the last one larger than the entry on the diagonal, not the largest. */
  function PivotRow(m: Mat, i: nat, j: nat): (s: nat)
    requires i < j <= 4
    ensures i <= s < 4
  {
    if j == i + 1 then i
    else if Abs(At(m, j - 1, i)) > Abs(At(m, i, i)) then j - 1
    else PivotRow(m, i, j - 1)
  }

  function Exchange(s: State, i: nat): State
    requires i < 4
  {
    var p := PivotRow(s.temp, i, 4);
    if p == i then s else State(SwapRows(s.temp, i, p), SwapRows(s.inverse, i, p))
  }

  function Normalize(s: State, i: nat): State
    requires i < 4 && At(s.temp, i, i) != 0.0
  {
    var t := At(s.temp, i, i);
    State(DivideRow(s.temp, i, t), DivideRow(s.inverse, i, t))
  }

  function Clear(s: State, i: nat, j: nat): State
    requires i < 4 && j < 4
  {
    var t := At(s.temp, j, i);
    if j == i then s else State(SubtractRow(s.temp, i, j, t), SubtractRow(s.inverse, i, j, t))
  }

  /** The elimination loop of column `i` up to row `j`. */
  function Eliminate(s: State, i: nat, j: nat): State
    requires i < 4 && j <= 4
  {
    if j == 0 then s else Clear(Eliminate(s, i, j - 1), i, j - 1)
  }

  function Column(s: State, i: nat): Option<State>
    requires i < 4
  {
    var e := Exchange(s, i);
    if At(e.temp, i, i) == 0.0 then None else Some(Eliminate(Normalize(e, i), i, 4))
  }

  /** The first `i` columns. */
  function Columns(src: Mat, i: nat): Option<State>
    requires i <= 4
  {
    if i == 0 then Some(State(src, Identity()))
    else match Columns(src, i - 1)
      case None => None
      case Some(s) => Column(s, i - 1)
  }

  function Inverse(src: Mat): Option<Mat> {
    match Columns(src, 4)
    case None => None
    case Some(s) => Some(s.inverse)
  }

  // ---------- what every row operation keeps ----------

  const ZERO: Vec := [0.0, 0.0, 0.0, 0.0]

  /** Both matrices are related to the source: temp is inverse times source, temp annihilates
      no vector the source does not, and is not singular unless the source is. */
  ghost predicate Related(src: Mat, s: State) {
    && Mul(s.inverse, src) == s.temp
    && (Det(s.temp) == 0.0 <==> Det(src) == 0.0)
    && NullsDown(s.temp, src)
  }

  ghost predicate NullsDown(m: Mat, src: Mat) {
    forall x: Vec :: MulVec(m, x) == ZERO ==> MulVec(src, x) == ZERO
  }

  lemma Start(src: Mat)
    ensures Related(src, State(src, Identity()))
  {
    MulIdentity(src);
    hide Mul, Det, MulVec;
  }

  lemma NullRow(m: Mat, x: Vec, r: nat)
    requires MulVec(m, x) == ZERO && r < 4
    ensures Dot(Row(m, r), x) == 0.0
  {
    hide Dot, Row;
    assert MulVec(m, x)[r] == Dot(Row(m, r), x);
  }

  lemma AllRowsNull(m: Mat, x: Vec)
    requires forall r :: 0 <= r < 4 ==> Dot(Row(m, r), x) == 0.0
    ensures MulVec(m, x) == ZERO
  {
    hide Dot, Row;
  }

  // ---------- swapping ----------

  lemma SwapRowsRow(m: Mat, i: nat, p: nat, k: nat)
    requires i < 4 && p < 4 && i != p && k < 4
    ensures Row(SwapRows(m, i, p), k) == if k == i then Row(m, p) else if k == p then Row(m, i) else Row(m, k)
  {
    hide Row, SetRow;
    SetRowRow(m, i, Row(m, p), k);
    SetRowRow(SetRow(m, i, Row(m, p)), p, Row(m, i), k);
  }

  lemma MulSwapRows(a: Mat, i: nat, p: nat, b: Mat)
    requires i < 4 && p < 4
    ensures Mul(SwapRows(a, i, p), b) == SwapRows(Mul(a, b), i, p)
  {
    hide Row, SetRow, Mul, VecMul;
    MulSetRow(a, i, Row(a, p), b);
    MulSetRow(SetRow(a, i, Row(a, p)), p, Row(a, i), b);
    MulRow(a, b, i);
    MulRow(a, b, p);
  }

  lemma SwapRelated(src: Mat, s: State, i: nat, p: nat)
    requires Related(src, s) && i < p < 4
    ensures Related(src, State(SwapRows(s.temp, i, p), SwapRows(s.inverse, i, p)))
  {
    hide SwapRows, Mul, Det, MulVec, Row, Dot;
    MulSwapRows(s.inverse, i, p, src);
    DetSwap(s.temp, i, p);
    forall x: Vec | MulVec(SwapRows(s.temp, i, p), x) == ZERO
      ensures MulVec(s.temp, x) == ZERO
    {
      forall k | 0 <= k < 4
        ensures Dot(Row(s.temp, k), x) == 0.0
      {
        var q := if k == i then p else if k == p then i else k;
        SwapRowsRow(s.temp, i, p, q);
        NullRow(SwapRows(s.temp, i, p), x, q);
      }
      AllRowsNull(s.temp, x);
    }
  }

  // ---------- dividing ----------

  lemma QuotientScaled(v: Vec, t: real)
    requires t != 0.0
    ensures Quotient(v, t) == Scaled(v, 1.0 / t)
  {
    DivideNumbers(v[0], t); DivideNumbers(v[1], t); DivideNumbers(v[2], t); DivideNumbers(v[3], t);
    var x, y := Quotient(v, t), Scaled(v, 1.0 / t);
    assert x[0] == y[0] && x[1] == y[1] && x[2] == y[2] && x[3] == y[3];
  }

  lemma DivideNumbers(x: real, t: real)
    requires t != 0.0
    ensures x / t == x * (1.0 / t)
  {}

  lemma MulDivideRow(a: Mat, i: nat, t: real, b: Mat)
    requires i < 4 && t != 0.0
    ensures Mul(DivideRow(a, i, t), b) == DivideRow(Mul(a, b), i, t)
  {
    hide Row, SetRow, Mul, VecMul, Quotient, Scaled;
    QuotientScaled(Row(a, i), t);
    QuotientScaled(Row(Mul(a, b), i), t);
    MulSetRow(a, i, Scaled(Row(a, i), 1.0 / t), b);
    VecMulScaled(Row(a, i), 1.0 / t, b);
    MulRow(a, b, i);
  }

  lemma DetDivideRow(m: Mat, i: nat, t: real)
    requires i < 4 && t != 0.0
    ensures Det(DivideRow(m, i, t)) == Det(m) * (1.0 / t)
  {
    hide Row, SetRow, Det, Quotient, Scaled, Cofactors, Dot;
    QuotientScaled(Row(m, i), t);
    Expand(m, i, Scaled(Row(m, i), 1.0 / t));
    Expand(m, i, Row(m, i));
    DotScaled(Row(m, i), 1.0 / t, Cofactors(m, i));
    SetRowSame(m, i);
  }

  lemma ZeroProduct(d: real, t: real)
    requires t != 0.0
    ensures d * (1.0 / t) == 0.0 <==> d == 0.0
  {
    if d * (1.0 / t) == 0.0 { assert d == d * (1.0 / t) * t; }
  }

  lemma DivideRelated(src: Mat, s: State, i: nat, t: real)
    requires Related(src, s) && i < 4 && t != 0.0
    ensures Related(src, State(DivideRow(s.temp, i, t), DivideRow(s.inverse, i, t)))
  {
    hide DivideRow, Mul, Det, MulVec, Row, Dot;
    MulDivideRow(s.inverse, i, t, src);
    DetDivideRow(s.temp, i, t);
    ZeroProduct(Det(s.temp), t);
    forall x: Vec | MulVec(DivideRow(s.temp, i, t), x) == ZERO
      ensures MulVec(s.temp, x) == ZERO
    {
      forall k | 0 <= k < 4
        ensures Dot(Row(s.temp, k), x) == 0.0
      {
        NullRow(DivideRow(s.temp, i, t), x, k);
        DivideRowDot(s.temp, i, t, k, x);
      }
      AllRowsNull(s.temp, x);
    }
  }

  lemma DivideRowDot(m: Mat, i: nat, t: real, k: nat, x: Vec)
    requires i < 4 && k < 4 && t != 0.0
    ensures Dot(Row(DivideRow(m, i, t), k), x) == 0.0 <==> Dot(Row(m, k), x) == 0.0
  {
    hide Row, Dot, Scaled, Quotient, SetRow;
    SetRowRow(m, i, Quotient(Row(m, i), t), k);
    QuotientScaled(Row(m, i), t);
    DotScaled(Row(m, i), 1.0 / t, x);
    ZeroProduct(Dot(Row(m, i), x), t);
  }

  // ---------- subtracting ----------

  lemma MinusPlus(u: Vec, v: Vec, t: real)
    ensures Minus(u, v, t) == Plus(u, Scaled(v, -t))
  {}

  lemma MulSubtractRow(a: Mat, i: nat, j: nat, t: real, b: Mat)
    requires i < 4 && j < 4
    ensures Mul(SubtractRow(a, i, j, t), b) == SubtractRow(Mul(a, b), i, j, t)
  {
    hide Row, SetRow, Mul, VecMul, Minus;
    MulSetRow(a, j, Minus(Row(a, j), Row(a, i), t), b);
    VecMulMinus(Row(a, j), Row(a, i), t, b);
    MulRow(a, b, i);
    MulRow(a, b, j);
  }

  lemma VecMulMinus(u: Vec, v: Vec, t: real, m: Mat)
    ensures VecMul(Minus(u, v, t), m) == Minus(VecMul(u, m), VecMul(v, m), t)
  {
    hide Dot, Col;
    DotMinus(u, v, t, Col(m, 0)); DotMinus(u, v, t, Col(m, 1)); DotMinus(u, v, t, Col(m, 2)); DotMinus(u, v, t, Col(m, 3));
    var x, y := VecMul(Minus(u, v, t), m), Minus(VecMul(u, m), VecMul(v, m), t);
    assert x[0] == y[0] && x[1] == y[1] && x[2] == y[2] && x[3] == y[3];
  }

  lemma DotMinus(u: Vec, v: Vec, t: real, x: Vec)
    ensures Dot(Minus(u, v, t), x) == Dot(u, x) - Dot(v, x) * t
  {
    hide *;
    MinusPlus(u, v, t);
    DotPlus(u, Scaled(v, -t), x);
    DotScaled(v, -t, x);
  }

  lemma DetSubtractRow(m: Mat, i: nat, j: nat, t: real)
    requires i < 4 && j < 4 && i != j
    ensures Det(SubtractRow(m, i, j, t)) == Det(m)
  {
    hide Row, SetRow, Det, Minus, Scaled, Plus;
    MinusPlus(Row(m, j), Row(m, i), t);
    DetLinear(m, j, Row(m, j), Row(m, i), -t);
    SetRowSame(m, j);
    SetRowRow(m, j, Row(m, i), i);
    SetRowRow(m, j, Row(m, i), j);
    DetEqualRows(SetRow(m, j, Row(m, i)), i, j);
  }

  lemma SubtractRelated(src: Mat, s: State, i: nat, j: nat, t: real)
    requires Related(src, s) && i < 4 && j < 4 && i != j
    ensures Related(src, State(SubtractRow(s.temp, i, j, t), SubtractRow(s.inverse, i, j, t)))
  {
    hide SubtractRow, Mul, Det, MulVec, Row, Dot;
    MulSubtractRow(s.inverse, i, j, t, src);
    DetSubtractRow(s.temp, i, j, t);
    forall x: Vec | MulVec(SubtractRow(s.temp, i, j, t), x) == ZERO
      ensures MulVec(s.temp, x) == ZERO
    {
      forall k | 0 <= k < 4
        ensures Dot(Row(s.temp, k), x) == 0.0
      {
        NullRow(SubtractRow(s.temp, i, j, t), x, i);
        NullRow(SubtractRow(s.temp, i, j, t), x, k);
        SubtractRowDot(s.temp, i, j, t, i, x);
        SubtractRowDot(s.temp, i, j, t, k, x);
      }
      AllRowsNull(s.temp, x);
    }
  }

  lemma SubtractRowDot(m: Mat, i: nat, j: nat, t: real, k: nat, x: Vec)
    requires i < 4 && j < 4 && k < 4
    ensures Dot(Row(SubtractRow(m, i, j, t), k), x) ==
            if k == j then Dot(Row(m, j), x) - Dot(Row(m, i), x) * t else Dot(Row(m, k), x)
  {
    hide Row, Dot, Minus, SetRow;
    SetRowRow(m, j, Minus(Row(m, j), Row(m, i), t), k);
    DotMinus(Row(m, j), Row(m, i), t, x);
  }

  // ---------- the shape of temp ----------

  /** The first `i` columns are those of the identity. */
  predicate UnitColumns(m: Mat, i: nat)
    requires i <= 4
  {
    forall r, c :: 0 <= r < 4 && 0 <= c < i ==> At(m, r, c) == if r == c then 1.0 else 0.0
  }

  lemma RowAt(m: Mat, r: nat, c: nat)
    requires r < 4 && c < 4
    ensures Row(m, r)[c] == At(m, r, c)
  {}

  lemma SwapAt(m: Mat, i: nat, p: nat, r: nat, c: nat)
    requires i < 4 && p < 4 && i != p && r < 4 && c < 4
    ensures At(SwapRows(m, i, p), r, c) == if r == i then At(m, p, c) else if r == p then At(m, i, c) else At(m, r, c)
  {
    hide SwapRows, Row, At;
    SwapRowsRow(m, i, p, r);
    RowAt(SwapRows(m, i, p), r, c);
    RowAt(m, i, c); RowAt(m, p, c); RowAt(m, r, c);
  }

  lemma DivideAt(m: Mat, i: nat, t: real, r: nat, c: nat)
    requires i < 4 && t != 0.0 && r < 4 && c < 4
    ensures At(DivideRow(m, i, t), r, c) == if r == i then At(m, i, c) / t else At(m, r, c)
  {
    hide SetRow, Row, At;
    SetRowRow(m, i, Quotient(Row(m, i), t), r);
    RowAt(DivideRow(m, i, t), r, c);
    RowAt(m, i, c); RowAt(m, r, c);
  }

  lemma SubtractAt(m: Mat, i: nat, j: nat, t: real, r: nat, c: nat)
    requires i < 4 && j < 4 && r < 4 && c < 4
    ensures At(SubtractRow(m, i, j, t), r, c) == if r == j then Less(At(m, j, c), At(m, i, c), t) else At(m, r, c)
  {
    hide SetRow, Row, At, Less;
    SetRowRow(m, j, Minus(Row(m, j), Row(m, i), t), r);
    RowAt(SubtractRow(m, i, j, t), r, c);
    RowAt(m, i, c); RowAt(m, j, c); RowAt(m, r, c);
  }

  /** When the search leaves the diagonal entry 0, the whole column below it is 0: the search
      may miss the largest entry but never a non-zero one. */
  lemma {:induction false} PivotZero(m: Mat, i: nat, j: nat)
    requires i < j <= 4
    ensures PivotRow(m, i, j) == i && At(m, i, i) == 0.0 ==> forall r :: i <= r < j ==> At(m, r, i) == 0.0
    ensures PivotRow(m, i, j) != i ==> At(m, PivotRow(m, i, j), i) != 0.0
  {
    hide At;
    if j > i + 1 { PivotZero(m, i, j - 1); }
  }

  /** No row below the one found exceeds the diagonal entry. */
  lemma {:induction false} PivotIsLast(m: Mat, i: nat, j: nat)
    requires i < j <= 4
    ensures PivotRow(m, i, j) < j && (PivotRow(m, i, j) != i ==> Abs(At(m, PivotRow(m, i, j), i)) > Abs(At(m, i, i)))
    ensures forall r :: PivotRow(m, i, j) < r < j ==> Abs(At(m, r, i)) <= Abs(At(m, i, i))
  {
    hide At, Abs;
    if j > i + 1 { PivotIsLast(m, i, j - 1); }
  }

  /** `p` holds a largest entry of column `i` from the diagonal down. */
  predicate IsLargest(m: Mat, i: nat, p: nat)
    requires i < 4 && p < 4
  {
    forall r :: i <= r < 4 ==> Abs(At(m, r, i)) <= Abs(At(m, p, i))
  }

  /** The search finds a largest entry, as its comment says, exactly when the last entry that
      exceeds the diagonal one is not exceeded by an earlier such entry. */
  lemma PivotLargestExactly(m: Mat, i: nat)
    requires i < 4
    ensures var p := PivotRow(m, i, 4);
      IsLargest(m, i, p) <==>
        forall r :: i < r < p && Abs(At(m, r, i)) > Abs(At(m, i, i)) ==> Abs(At(m, r, i)) <= Abs(At(m, p, i))
  {
    hide At, Abs, PivotRow;
    PivotIsLast(m, i, 4);
  }

  /** With 1, 3, 2, 0 in the first column the search stops at 2. */
  lemma PivotNotLargest(m: Mat)
    requires At(m, 0, 0) == 1.0 && At(m, 1, 0) == 3.0 && At(m, 2, 0) == 2.0 && At(m, 3, 0) == 0.0
    ensures PivotRow(m, 0, 4) == 2 && !IsLargest(m, 0, 2)
  {
    hide At;
    assert PivotRow(m, 0, 3) == 2;
    assert Abs(At(m, 1, 0)) > Abs(At(m, 2, 0));
  }

  lemma ExchangeKeeps(src: Mat, s: State, i: nat)
    requires i < 4 && Related(src, s) && UnitColumns(s.temp, i)
    ensures Related(src, Exchange(s, i)) && UnitColumns(Exchange(s, i).temp, i)
    ensures At(Exchange(s, i).temp, i, i) == 0.0 ==> forall r :: i <= r < 4 ==> At(Exchange(s, i).temp, r, i) == 0.0
  {
    hide Related, SwapRows, At;
    var p := PivotRow(s.temp, i, 4);
    PivotZero(s.temp, i, 4);
    if p != i {
      SwapRelated(src, s, i, p);
      forall r, c | 0 <= r < 4 && 0 <= c < 4
        ensures At(SwapRows(s.temp, i, p), r, c) ==
          if r == i then At(s.temp, p, c) else if r == p then At(s.temp, i, c) else At(s.temp, r, c)
      {
        SwapAt(s.temp, i, p, r, c);
      }
    }
  }

  /** Row `i` is normalized and the other rows below `j` are cleared in column `i`. */
  predicate Cleared(m: Mat, i: nat, j: nat)
    requires i < 4 && j <= 4
  {
    UnitColumns(m, i) && At(m, i, i) == 1.0 && forall r :: 0 <= r < j && r != i ==> At(m, r, i) == 0.0
  }

  lemma NormalizeKeeps(src: Mat, s: State, i: nat)
    requires i < 4 && Related(src, s) && UnitColumns(s.temp, i) && At(s.temp, i, i) != 0.0
    ensures Related(src, Normalize(s, i)) && Cleared(Normalize(s, i).temp, i, 0)
  {
    hide Related, DivideRow, At;
    var t := At(s.temp, i, i);
    DivideRelated(src, s, i, t);
    forall r, c | 0 <= r < 4 && 0 <= c < 4
      ensures At(DivideRow(s.temp, i, t), r, c) == if r == i then At(s.temp, i, c) / t else At(s.temp, r, c)
    {
      DivideAt(s.temp, i, t, r, c);
    }
  }

  lemma ClearKeeps(src: Mat, s: State, i: nat, j: nat)
    requires i < 4 && j < 4 && Related(src, s) && Cleared(s.temp, i, j)
    ensures Related(src, Clear(s, i, j)) && Cleared(Clear(s, i, j).temp, i, j + 1)
  {
    hide Related, SubtractRow, At;
    if j != i {
      var t := At(s.temp, j, i);
      SubtractRelated(src, s, i, j, t);
      forall r, c | 0 <= r < 4 && 0 <= c < 4
        ensures At(SubtractRow(s.temp, i, j, t), r, c) ==
          if r == j then Less(At(s.temp, j, c), At(s.temp, i, c), t) else At(s.temp, r, c)
      {
        SubtractAt(s.temp, i, j, t, r, c);
      }
    }
  }

  lemma {:induction false} EliminateKeeps(src: Mat, s: State, i: nat, j: nat)
    requires i < 4 && j <= 4 && Related(src, s) && Cleared(s.temp, i, 0)
    ensures Related(src, Eliminate(s, i, j)) && Cleared(Eliminate(s, i, j).temp, i, j)
  {
    hide Related, Clear, Cleared;
    if j > 0 {
      EliminateKeeps(src, s, i, j - 1);
      ClearKeeps(src, Eliminate(s, i, j - 1), i, j - 1);
    }
  }

  lemma ClearedUnit(m: Mat, i: nat)
    requires i < 4 && Cleared(m, i, 4)
    ensures UnitColumns(m, i + 1)
  {
    hide At;
  }

  /** A column that fails shows a vector that `temp`, hence the source, annihilates. */
  lemma ColumnKeeps(src: Mat, s: State, i: nat)
    requires i < 4 && Related(src, s) && UnitColumns(s.temp, i)
    ensures Column(s, i).Some? ==> Related(src, Column(s, i).value) && UnitColumns(Column(s, i).value.temp, i + 1)
    ensures Column(s, i) == None ==> exists x: Vec :: x != ZERO && MulVec(src, x) == ZERO
  {
    hide Related, Exchange, Normalize, Eliminate, UnitColumns, Cleared, At, MulVec;
    ExchangeKeeps(src, s, i);
    var e := Exchange(s, i);
    if At(e.temp, i, i) == 0.0 {
      NullVector(src, e, i);
    } else {
      NormalizeKeeps(src, e, i);
      EliminateKeeps(src, Normalize(e, i), i, 4);
      ClearedUnit(Eliminate(Normalize(e, i), i, 4).temp, i);
    }
  }

  /** Minus the entries above the dead column, and 1 in its place. */
  function NullOf(m: Mat, i: nat): Vec
    requires i < 4
  {
    match i
    case 0 => [1.0, 0.0, 0.0, 0.0]
    case 1 => [-At(m, 0, 1), 1.0, 0.0, 0.0]
    case 2 => [-At(m, 0, 2), -At(m, 1, 2), 1.0, 0.0]
    case _ => [-At(m, 0, 3), -At(m, 1, 3), -At(m, 2, 3), 1.0]
  }

  lemma NullVector(src: Mat, s: State, i: nat)
    requires i < 4 && Related(src, s) && UnitColumns(s.temp, i)
    requires forall r :: i <= r < 4 ==> At(s.temp, r, i) == 0.0
    ensures exists x: Vec :: x != ZERO && MulVec(src, x) == ZERO
  {
    hide Mul, Det, MulVec, At;
    var x := NullOf(s.temp, i);
    NullOfWorks(s.temp, i);
    assert x[i] == 1.0 && ZERO[i] == 0.0;
    assert x != ZERO && MulVec(src, x) == ZERO;
  }

  lemma NullOfWorks(m: Mat, i: nat)
    requires i < 4 && UnitColumns(m, i)
    requires forall r :: i <= r < 4 ==> At(m, r, i) == 0.0
    ensures MulVec(m, NullOf(m, i)) == ZERO
  {
    hide At;
    var x := NullOf(m, i);
    forall r | 0 <= r < 4
      ensures Dot(Row(m, r), x) == 0.0
    {
      match i
      case 0 => case 1 => case 2 => case _ =>
    }
    hide Dot, Row;
    AllRowsNull(m, x);
  }

  lemma {:induction false} ColumnsKeep(src: Mat, i: nat)
    requires i <= 4
    ensures Columns(src, i).Some? ==> Related(src, Columns(src, i).value) && UnitColumns(Columns(src, i).value.temp, i)
    ensures Columns(src, i) == None ==> exists x: Vec :: x != ZERO && MulVec(src, x) == ZERO
  {
    hide Related, Column, At, MulVec;
    if i == 0 {
      Start(src);
    } else {
      ColumnsKeep(src, i - 1);
      if Columns(src, i - 1).Some? {
        ColumnKeeps(src, Columns(src, i - 1).value, i - 1);
      }
    }
  }

  // ---------- what the inversion decides ----------

  lemma UnitIsIdentity(m: Mat)
    requires UnitColumns(m, 4)
    ensures m == Identity()
  {
    forall r, c | 0 <= r < 4 && 0 <= c < 4
      ensures At(m, r, c) == At(Identity(), r, c)
    {
      IdentityAt(r, c);
    }
    hide At, Identity;
    SameEntries(m, Identity());
  }

  lemma DetIdentity()
    ensures Det(Identity()) == 1.0
  {}

  /** Success: the result is the two-sided inverse, the one of the cofactors. */
  lemma InverseCorrect(src: Mat)
    requires Inverse(src).Some?
    ensures Det(src) != 0.0 && Inverse(src).value == CofactorInverse(src)
    ensures Mul(Inverse(src).value, src) == Identity() && Mul(src, Inverse(src).value) == Identity()
  {
    hide Mul, Det, At, NullsDown, UnitColumns, Identity, CofactorInverse;
    ColumnsKeep(src, 4);
    var s := Columns(src, 4).value;
    UnitIsIdentity(s.temp);
    DetIdentity();
    CofactorInverseWorks(src);
    InverseUnique(s.inverse, src, CofactorInverse(src));
  }

  lemma MulVecZero(m: Mat)
    ensures MulVec(m, ZERO) == ZERO
  {}

  lemma NullNotInvertible(src: Mat, x: Vec)
    requires x != ZERO && MulVec(src, x) == ZERO
    ensures !Invertible(src)
  {
    hide Mul, MulVec, Identity;
    if Invertible(src) {
      var b: Mat :| Mul(b, src) == Identity();
      MulVecAssoc(b, src, x);
      VecMulIdentity(x);
      MulVecZero(b);
    }
  }

  /** Gauss-Jordan succeeds exactly on the invertible matrices, which are exactly those with
      a non-zero determinant. */
  lemma InverseExact(src: Mat)
    ensures Inverse(src).Some? <==> Invertible(src)
    ensures Invertible(src) <==> Det(src) != 0.0
  {
    hide Mul, MulVec, Det, Related, UnitColumns, Identity, CofactorInverse;
    ColumnsKeep(src, 4);
    if Inverse(src).Some? {
      InverseCorrect(src);
    } else {
      var x: Vec :| x != ZERO && MulVec(src, x) == ZERO;
      NullNotInvertible(src, x);
    }
    if Det(src) != 0.0 { CofactorInverseWorks(src); }
  }

  // ---------- the code ----------

  /** A row loop on its way: columns below `k` are done. */
  function Blend(m: Mat, done: Mat, k: nat): Mat {
    seq(16, n requires 0 <= n < 16 => if n % 4 < k then done[n] else m[n])
  }

  lemma BlendEnds(m: Mat, done: Mat)
    ensures Blend(m, done, 0) == m && Blend(m, done, 4) == done
  {}

  /** One turn of a loop that changes row `i` only. */
  lemma BlendRow(m: Mat, i: nat, v: Vec, k: nat)
    requires i < 4 && k < 4
    ensures Blend(m, SetRow(m, i, v), k)[4 * i + k := v[k]] == Blend(m, SetRow(m, i, v), k + 1)
    ensures Row(Blend(m, SetRow(m, i, v), k), i)[k] == At(m, i, k)
    ensures forall r :: 0 <= r < 4 && r != i ==> At(Blend(m, SetRow(m, i, v), k), r, k) == At(m, r, k)
  {
    forall n | 0 <= n < 16 && n % 4 == k
      ensures n == 4 * i + k || n / 4 != i
    {}
  }

  lemma BlendAt(m: Mat, done: Mat, k: nat, r: nat, c: nat)
    requires r < 4 && c < 4
    ensures At(Blend(m, done, k), r, c) == if c < k then At(done, r, c) else At(m, r, c)
  {
    assert (4 * r + c) % 4 == c;
  }

  lemma UpdateAt(m: Mat, i: nat, k: nat, x: real, r: nat, c: nat)
    requires i < 4 && k < 4 && r < 4 && c < 4
    ensures At(m[4 * i + k := x], r, c) == if r == i && c == k then x else At(m, r, c)
  {}

  /** One turn of the swap loop. */
  lemma BlendSwap(m: Mat, i: nat, p: nat, k: nat)
    requires i < 4 && p < 4 && i != p && k < 4
    ensures var b := Blend(m, SwapRows(m, i, p), k);
      && At(b, i, k) == At(m, i, k) && At(b, p, k) == At(m, p, k)
      && b[4 * i + k := At(m, p, k)][4 * p + k := At(m, i, k)] == Blend(m, SwapRows(m, i, p), k + 1)
  {
    hide *;
    var d := SwapRows(m, i, p);
    var b := Blend(m, d, k);
    var b1: Mat := b[4 * i + k := At(m, p, k)];
    var b2: Mat := b1[4 * p + k := At(m, i, k)];
    BlendAt(m, d, k, i, k);
    BlendAt(m, d, k, p, k);
    forall r, c | 0 <= r < 4 && 0 <= c < 4
      ensures At(b2, r, c) == At(Blend(m, d, k + 1), r, c)
    {
      BlendAt(m, d, k, r, c);
      BlendAt(m, d, k + 1, r, c);
      UpdateAt(b, i, k, At(m, p, k), r, c);
      UpdateAt(b1, p, k, At(m, i, k), r, c);
      SwapAt(m, i, p, r, c);
    }
    SameEntries(b2, Blend(m, d, k + 1));
  }

  predicate Two(temp: array<real>, inverse: array<real>) {
    temp.Length == 16 && inverse.Length == 16 && temp != inverse
  }

  /** The swap loop. `temp[i][k]` of the source is `temp[i * 4 + k]`. */
  method SwapLoop(temp: array<real>, inverse: array<real>, i: nat, p: nat)
    requires Two(temp, inverse) && i < 4 && p < 4 && i != p
    modifies temp, inverse
    ensures temp[..] == SwapRows(old(temp[..]), i, p) && inverse[..] == SwapRows(old(inverse[..]), i, p)
  {
    hide SwapRows, Blend;
    ghost var m: Mat, v: Mat := temp[..], inverse[..];
    var k := 0;
    BlendEnds(m, SwapRows(m, i, p));
    BlendEnds(v, SwapRows(v, i, p));
    while k < 4
      invariant k <= 4
      invariant temp[..] == Blend(m, SwapRows(m, i, p), k) && inverse[..] == Blend(v, SwapRows(v, i, p), k)
    {
      BlendSwap(m, i, p, k);
      BlendSwap(v, i, p, k);
      var t := temp[i * 4 + k];
      temp[i * 4 + k] := temp[p * 4 + k];
      temp[p * 4 + k] := t;
      t := inverse[i * 4 + k];
      inverse[i * 4 + k] := inverse[p * 4 + k];
      inverse[p * 4 + k] := t;
      k := k + 1;
    }
  }

  /** The loop that normalizes the pivot row. */
  method DivideLoop(temp: array<real>, inverse: array<real>, i: nat, t: real)
    requires Two(temp, inverse) && i < 4 && t != 0.0
    modifies temp, inverse
    ensures temp[..] == DivideRow(old(temp[..]), i, t) && inverse[..] == DivideRow(old(inverse[..]), i, t)
  {
    hide SetRow, Blend;
    ghost var m: Mat, v: Mat := temp[..], inverse[..];
    var k := 0;
    BlendEnds(m, DivideRow(m, i, t));
    BlendEnds(v, DivideRow(v, i, t));
    while k < 4
      invariant k <= 4
      invariant temp[..] == Blend(m, DivideRow(m, i, t), k) && inverse[..] == Blend(v, DivideRow(v, i, t), k)
    {
      BlendRow(m, i, Quotient(Row(m, i), t), k);
      BlendRow(v, i, Quotient(Row(v, i), t), k);
      temp[i * 4 + k] := temp[i * 4 + k] / t;
      inverse[i * 4 + k] := inverse[i * 4 + k] / t;
      k := k + 1;
    }
  }

  /** The loop that clears one other row. */
  method SubtractLoop(temp: array<real>, inverse: array<real>, i: nat, j: nat, t: real)
    requires Two(temp, inverse) && i < 4 && j < 4 && i != j
    modifies temp, inverse
    ensures temp[..] == SubtractRow(old(temp[..]), i, j, t) && inverse[..] == SubtractRow(old(inverse[..]), i, j, t)
  {
    hide SubtractRow, Blend, Less;
    ghost var m: Mat, v: Mat := temp[..], inverse[..];
    var k := 0;
    BlendEnds(m, SubtractRow(m, i, j, t));
    BlendEnds(v, SubtractRow(v, i, j, t));
    while k < 4
      invariant k <= 4
      invariant temp[..] == Blend(m, SubtractRow(m, i, j, t), k) && inverse[..] == Blend(v, SubtractRow(v, i, j, t), k)
    {
      SubtractTurn(m, i, j, t, k);
      SubtractTurn(v, i, j, t, k);
      temp[j * 4 + k] := Less(temp[j * 4 + k], temp[i * 4 + k], t);
      inverse[j * 4 + k] := Less(inverse[j * 4 + k], inverse[i * 4 + k], t);
      k := k + 1;
    }
  }

  lemma SubtractTurn(m: Mat, i: nat, j: nat, t: real, k: nat)
    requires i < 4 && j < 4 && i != j && k < 4
    ensures var b := Blend(m, SubtractRow(m, i, j, t), k);
      b[4 * j + k := Less(b[4 * j + k], b[4 * i + k], t)] == Blend(m, SubtractRow(m, i, j, t), k + 1)
  {
    hide SetRow, Blend, Minus, Less;
    BlendRow(m, j, Minus(Row(m, j), Row(m, i), t), k);
    MinusAt(m, i, j, t, k);
    var b := Blend(m, SubtractRow(m, i, j, t), k);
    assert Row(b, j)[k] == b[4 * j + k];
    assert At(b, i, k) == b[4 * i + k];
  }

  lemma MinusAt(m: Mat, i: nat, j: nat, t: real, k: nat)
    requires i < 4 && j < 4 && k < 4
    ensures Minus(Row(m, j), Row(m, i), t)[k] == Less(At(m, j, k), At(m, i, k), t)
  {
    hide Less;
  }

  /** The pivot search: it compares with the diagonal entry, which it does not update. */
  method PivotSearch(temp: array<real>, i: nat) returns (swap: nat)
    requires temp.Length == 16 && i < 4
    ensures swap == PivotRow(temp[..], i, 4)
  {
    swap := i;
    var j := i + 1;
    while j < 4
      invariant i < j <= 4 && swap == PivotRow(temp[..], i, j)
    {
      if Abs(temp[j * 4 + i]) > Abs(temp[i * 4 + i]) {
        swap := j;
      }
      j := j + 1;
    }
  }

  /** The body of the outer loop. */
  method ReduceColumn(temp: array<real>, inverse: array<real>, i: nat) returns (ok: bool)
    requires Two(temp, inverse) && i < 4
    modifies temp, inverse
    ensures ok <==> Column(old(State(temp[..], inverse[..])), i).Some?
    ensures ok ==> Some(State(temp[..], inverse[..])) == Column(old(State(temp[..], inverse[..])), i)
  {
    hide PivotRow, SwapRows, DivideRow, SubtractRow, Eliminate;
    ghost var s := State(temp[..], inverse[..]);
    var swap := PivotSearch(temp, i);
    if swap != i {
      SwapLoop(temp, inverse, i, swap);
    }
    assert State(temp[..], inverse[..]) == Exchange(s, i);
    if temp[i * 4 + i] == 0.0 { return false; }
    var t := temp[i * 4 + i];
    DivideLoop(temp, inverse, i, t);
    EliminateLoop(temp, inverse, i);
    ok := true;
  }

  /** fslInvertMatrix4x4. `inverse` may be `src`, which is copied first. */
  method InvertMatrix4x4(src: array<real>, inverse: array<real>) returns (ok: bool)
    requires src.Length == 16 && inverse.Length == 16
    modifies inverse
    ensures ok <==> Inverse(old(src[..])).Some?
    ensures ok ==> inverse[..] == Inverse(old(src[..])).value
  {
    hide Column, Identity;
    ghost var source: Mat := src[..];
    var temp := new real[16](n requires 0 <= n < 16 reads src => src[n]);
    assert temp[..] == source;
    LoadIdentity(inverse);
    var i := 0;
    while i < 4
      invariant i <= 4
      invariant Columns(source, i) == Some(State(temp[..], inverse[..]))
    {
      ok := ReduceColumn(temp, inverse, i);
      if !ok {
        ColumnStops(source, i, 4);
        return;
      }
      i := i + 1;
    }
    ok := true;
  }

  lemma {:induction false} ColumnStops(src: Mat, i: nat, n: nat)
    requires i < n <= 4 && Columns(src, i).Some? && Column(Columns(src, i).value, i) == None
    ensures Columns(src, n) == None
  {
    hide Column;
    if n > i + 1 { ColumnStops(src, i, n - 1); }
  }

  method EliminateLoop(temp: array<real>, inverse: array<real>, i: nat)
    requires Two(temp, inverse) && i < 4
    modifies temp, inverse
    ensures State(temp[..], inverse[..]) == Eliminate(old(State(temp[..], inverse[..])), i, 4)
  {
    hide SubtractRow;
    ghost var s := State(temp[..], inverse[..]);
    var j := 0;
    while j < 4
      invariant j <= 4 && State(temp[..], inverse[..]) == Eliminate(s, i, j)
    {
      if j != i {
        var t := temp[j * 4 + i];
        SubtractLoop(temp, inverse, i, j, t);
      }
      j := j + 1;
    }
  }

  method LoadIdentity(inverse: array<real>)
    requires inverse.Length == 16
    modifies inverse
    ensures inverse[..] == Identity()
  {
    forall n | 0 <= n < 16 {
      inverse[n] := if n % 5 == 0 then 1.0 else 0.0;
    }
  }
}
