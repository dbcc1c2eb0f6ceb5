/** Integer facts about strides, shared by the flash modules. */
module Strides {

  lemma DivBelow(x: nat, d: nat, n: nat)
    requires d > 0 && x < n * d
    ensures 0 <= x / d < n
  {
    if x / d >= n {
      MulMono(n, x / d, d);
    }
  }

  lemma MulMono(a: nat, b: nat, d: nat)
    requires a <= b
    ensures a * d <= b * d
  {}

  lemma AlignedRemainder(o: nat, s: nat, e: nat)
    requires s > 0 && e > 0 && e % s == 0 && o % s == 0
    ensures (o % e) % s == 0
  {
    var q := o / e;
    var k := e / s;
    var i := o / s;
    assert o == i * s && e == k * s;
    assert q * e == (q * k) * s by { MulAssoc(q, k, s); }
    assert o % e == o - q * e == (i - q * k) * s by { MulSub(i, q * k, s); }
    ModOfMultiple(i - q * k, s);
  }

  lemma MulAssoc(a: int, b: int, c: int)
    ensures a * (b * c) == (a * b) * c
  {}

  lemma MulSub(a: int, b: int, c: int)
    ensures a * c - b * c == (a - b) * c
  {}

  lemma ModOfMultiple(a: int, s: nat)
    requires s > 0
    ensures (a * s) % s == 0
  {
    var q, r := (a * s) / s, (a * s) % s;
    assert a * s == q * s + r;
    MulSub(a, q, s);
    assert (a - q) * s == r;
    SmallMultiple(a - q, s);
  }

  lemma SmallMultiple(k: int, s: nat)
    requires 0 <= k * s < s
    ensures k * s == 0
  {
    if k >= 1 {
      MulMono(1, k, s);
    } else if k <= -1 {
      MulMono(1, -k, s);
      assert (-k) * s == -(k * s);
    }
  }

  lemma AlignedRoom(r: nat, s: nat, e: nat)
    requires s > 0 && r < e && e % s == 0 && r % s == 0
    ensures r + s <= e
  {
    var k, i := e / s, r / s;
    assert e == k * s && r == i * s;
    if k <= i { MulMono(k, i, s); }
    MulMono(i + 1, k, s);
    assert (i + 1) * s == i * s + s;
  }

  lemma DivUnique(x: nat, e: nat, q: nat)
    requires e > 0 && q * e <= x < q * e + e
    ensures x / e == q
  {
    var d := x / e;
    assert d * e <= x < d * e + e;
    assert (d + 1) * e == d * e + e && (q + 1) * e == q * e + e;
    if d < q { MulMono(d + 1, q, e); }
    if q < d { MulMono(q + 1, d, e); }
  }

  lemma DivMod(q: nat, r: nat, e: nat)
    requires r < e
    ensures (q * e + r) / e == q && (q * e + r) % e == r
  {
    DivUnique(q * e + r, e, q);
  }

  lemma DivBetween(x: nat, y: nat, z: nat, e: nat)
    requires e > 0 && x <= y <= z && x / e == z / e
    ensures y / e == x / e
  {
    DivUnique(y, e, x / e);
  }

  // ---------- rounding up to a multiple ----------

  function RoundUp(n: nat, m: nat): (r: nat)
    requires m > 0
    ensures n <= r < n + m
  {
    if n % m == 0 then n else n - n % m + m
  }

  lemma RoundUpAligned(n: nat, m: nat)
    requires m > 0
    ensures RoundUp(n, m) % m == 0
  {
    var q := n / m;
    assert n == q * m + n % m;
    ModOfMultiple(q, m);
    ModOfMultiple(q + 1, m);
    assert (q + 1) * m == q * m + m;
  }

  /** The least multiple of `m` that is at least `n`. */
  lemma RoundUpLeast(n: nat, m: nat, k: nat)
    requires m > 0 && k % m == 0 && n <= k
    ensures RoundUp(n, m) <= k
  {
    RoundUpAligned(n, m);
    hide RoundUp;
    if k < RoundUp(n, m) { AlignedRoom(k, m, RoundUp(n, m)); }
  }

  lemma RoundUpUnique(n: nat, m: nat, k: nat)
    requires m > 0 && k % m == 0 && n <= k < n + m
    ensures k == RoundUp(n, m)
  {
    RoundUpLeast(n, m, k);
    RoundUpAligned(n, m);
    hide RoundUp;
    if RoundUp(n, m) < k { AlignedRoom(RoundUp(n, m), m, k); }
  }

  /** At or behind `n`, the offsets below the rounded end are those on the page of byte n - 1. */
  lemma PageEnd(n: nat, p: nat, k: nat)
    requires p > 0 && 0 < n <= k
    ensures k < RoundUp(n, p) <==> k / p == (n - 1) / p
  {
    hide RoundUp;
    var q := (n - 1) / p;
    assert n - 1 == q * p + (n - 1) % p;
    ModOfMultiple(q + 1, p);
    assert (q + 1) * p == q * p + p;
    RoundUpUnique(n, p, (q + 1) * p);
    if k < (q + 1) * p {
      DivUnique(k, p, q);
    } else {
      assert k == k / p * p + k % p;
    }
  }

  lemma AddAligned(a: nat, b: nat, m: nat)
    requires m > 0 && a % m == 0 && b % m == 0
    ensures (a + b) % m == 0
  {
    var i, j := a / m, b / m;
    assert a == i * m && b == j * m;
    assert (i + j) * m == i * m + j * m;
    ModOfMultiple(i + j, m);
  }

  /** A multiple of `e` is a multiple of every divisor of `e`. */
  lemma AlignedToDivisor(a: nat, e: nat, s: nat)
    requires s > 0 && e > 0 && e % s == 0 && a % e == 0
    ensures a % s == 0
  {
    var q, k := a / e, e / s;
    assert a == q * e && e == k * s;
    MulAssoc(q, k, s);
    ModOfMultiple(q * k, s);
  }

  lemma PreviousMultiple(o: nat, m: nat)
    requires m > 0 && o > 0 && o % m == 0
    ensures o >= m && (o - m) % m == 0
  {
    var k := o / m;
    assert o == k * m;
    MulMono(1, k, m);
    MulSub(k, 1, m);
    ModOfMultiple(k - 1, m);
  }
}
