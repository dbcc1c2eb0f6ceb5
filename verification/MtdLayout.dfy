/** Where file bytes live on a flash partition with bad erase blocks.

    Every loop of update_flash.c walks the partition with its own stride (an erase block,
    a page) and skips bad blocks on its own. `Logical` is the one mapping they share: the
    number of good bytes below a flash offset. It is defined byte by byte, so it belongs to
    no stride. */
module MtdLayout {
  import opened Checksum
  import opened Strides

  /** An erase block size and one bad-block flag per erase block. */
  datatype Layout = Layout(erasesize: nat, bad: seq<bool>) {

    predicate Valid() {
      erasesize > 0 && bad != []
    }

    function Size(): nat {
      |bad| * erasesize
    }

    predicate GoodAt(x: nat)
      requires Valid() && x < Size()
    {
      BlockInRange(x);
      !bad[x / erasesize]
    }

    lemma BlockInRange(x: nat)
      requires Valid() && x < Size()
      ensures 0 <= x / erasesize < |bad|
    {
      DivBelow(x, erasesize, |bad|);
    }

    /** Where the erase block of flash offset `x` starts. */
    function BlockBase(x: nat): (b: nat)
      requires Valid()
      ensures b <= x < b + erasesize && b % erasesize == 0
    {
      ModOfMultiple(x / erasesize, erasesize);
      x / erasesize * erasesize
    }

    /** The number of good bytes below flash offset `x`. */
    function Logical(x: nat): nat
      requires Valid() && x <= Size()
    {
      if x == 0 then 0 else Logical(x - 1) + if GoodAt(x - 1) then 1 else 0
    }

    /** The good bytes of a partition's content, in flash order. */
    function GoodBytes(c: seq<byte>): seq<byte>
      requires Valid() && |c| <= Size()
    {
      if c == [] then []
      else
        var n := |c| - 1;
        GoodBytes(c[..n]) + if GoodAt(n) then [c[n]] else []
    }
  }

  // ---------- strides ----------

  /** `[o, o + s)` lies inside one erase block. */
  predicate InOneBlock(l: Layout, o: nat, s: nat)
    requires l.Valid()
  {
    o + s <= l.Size() && (s > 0 ==> (o + s - 1) / l.erasesize == o / l.erasesize)
  }

  /** An aligned stride that divides the erase block size never straddles two blocks. */
  lemma StrideInOneBlock(l: Layout, o: nat, s: nat)
    requires l.Valid() && s > 0 && l.erasesize % s == 0 && o % s == 0 && o < l.Size()
    ensures InOneBlock(l, o, s)
  {
    var e := l.erasesize;
    var q := o / e;
    AlignedRemainder(o, s, e);
    AlignedRoom(o % e, s, e);
    DivBelow(o, e, |l.bad|);
    StrideEnd(q, |l.bad|, e, o, s);
    DivUnique(o + s - 1, e, q);
  }

  lemma PartOfStride(l: Layout, o: nat, s: nat, t: nat)
    requires l.Valid() && InOneBlock(l, o, s) && t <= s
    ensures InOneBlock(l, o, t)
    ensures t < s ==> o + t < l.Size() && l.GoodAt(o + t) == l.GoodAt(o)
  {
    var e := l.erasesize;
    if t < s { DivBetween(o, o + t, o + s - 1, e); }
    if 0 < t { DivBetween(o, o + t - 1, o + s - 1, e); }
  }

  lemma StrideEnd(q: nat, n: nat, e: nat, o: nat, s: nat)
    requires e > 0 && q < n && q == o / e && o % e + s <= e
    ensures q * e <= o && o + s <= q * e + e <= n * e
  {
    MulMono(q + 1, n, e);
    assert (q + 1) * e == q * e + e;
  }

  /** Crossing a stretch of one block adds its length, or nothing when the block is bad. */
  lemma {:induction false} LogicalStride(l: Layout, o: nat, s: nat)
    requires l.Valid() && s > 0 && InOneBlock(l, o, s)
    ensures l.Logical(o + s) == l.Logical(o) + if l.GoodAt(o) then s else 0
  {
    PartOfStride(l, o, s, s - 1);
    if s > 1 {
      LogicalStride(l, o, s - 1);
    }
  }

  lemma {:induction false} LogicalMonotone(l: Layout, x: nat, y: nat)
    requires l.Valid() && x <= y <= l.Size()
    ensures l.Logical(x) <= l.Logical(y)
    ensures x < y && l.GoodAt(x) ==> l.Logical(x) < l.Logical(y)
    decreases y
  {
    if x < y {
      LogicalMonotone(l, x, y - 1);
    }
  }

  // ---------- the good bytes ----------

  lemma {:induction false} GoodBytesLength(l: Layout, c: seq<byte>)
    requires l.Valid() && |c| <= l.Size()
    ensures |l.GoodBytes(c)| == l.Logical(|c|)
  {
    if c != [] {
      GoodBytesLength(l, c[..|c| - 1]);
    }
  }

  /** The good byte at flash offset `x` is byte number `Logical(x)`. */
  lemma {:induction false} GoodByteAt(l: Layout, c: seq<byte>, x: nat)
    requires l.Valid() && x < |c| <= l.Size() && l.GoodAt(x)
    ensures l.Logical(x) < |l.GoodBytes(c)| && l.GoodBytes(c)[l.Logical(x)] == c[x]
  {
    GoodBytesLength(l, c);
    LogicalMonotone(l, x, |c|);
    GoodBytesLength(l, c[..|c| - 1]);
    if x < |c| - 1 {
      GoodByteAt(l, c[..|c| - 1], x);
    }
  }

  /** Every logical position is some good flash offset. */
  lemma {:induction false} LogicalOnto(l: Layout, k: nat, n: nat) returns (x: nat)
    requires l.Valid() && n <= l.Size() && k < l.Logical(n)
    ensures x < n && l.GoodAt(x) && l.Logical(x) == k
  {
    if k < l.Logical(n - 1) {
      x := LogicalOnto(l, k, n - 1);
    } else {
      x := n - 1;
    }
  }

  lemma GoodBytesNext(l: Layout, c: seq<byte>, n: nat)
    requires l.Valid() && n < |c| <= l.Size()
    ensures l.GoodBytes(c[..n + 1]) == l.GoodBytes(c[..n]) + if l.GoodAt(n) then [c[n]] else []
  {
    assert c[..n + 1][..n] == c[..n];
  }

  /** Good bytes read stride by stride, skipping bad ones, are the good bytes. */
  lemma {:induction false} GoodBytesStride(l: Layout, c: seq<byte>, o: nat, s: nat)
    requires l.Valid() && s > 0 && InOneBlock(l, o, s) && o + s <= |c| <= l.Size()
    ensures l.GoodBytes(c[..o + s]) == l.GoodBytes(c[..o]) + if l.GoodAt(o) then c[o..o + s] else []
  {
    hide *;
    LayoutIs(l);
    PartOfStride(l, o, s, s - 1);
    GoodBytesNext(l, c, o + s - 1);
    assert c[o..o + s] == c[o..o + s - 1] + [c[o + s - 1]];
    if s > 1 {
      GoodBytesStride(l, c, o, s - 1);
    }
  }

  lemma LayoutIs(l: Layout)
    requires l.Valid()
    ensures l.erasesize > 0 && l.Size() == |l.bad| * l.erasesize
  {}

  lemma {:induction false} GoodBytesPrefix(l: Layout, c: seq<byte>, n: nat)
    requires l.Valid() && n <= |c| <= l.Size()
    ensures l.GoodBytes(c[..n]) <= l.GoodBytes(c)
    decreases |c|
  {
    if n < |c| {
      assert c[..|c| - 1][..n] == c[..n];
      GoodBytesPrefix(l, c[..|c| - 1], n);
    } else {
      assert c[..n] == c;
    }
  }

  /** The number of bad erase blocks. */
  function CountBad(bad: seq<bool>): nat {
    if bad == [] then 0 else CountBad(bad[..|bad| - 1]) + if bad[|bad| - 1] then 1 else 0
  }

  /** What is left after taking one erase block per bad block off the size is exactly the
      number of good bytes. */
  lemma {:induction false} GoodSize(l: Layout, n: nat)
    requires l.Valid() && n <= |l.bad|
    ensures n * l.erasesize <= l.Size()
    ensures l.Logical(n * l.erasesize) == n * l.erasesize - l.erasesize * CountBad(l.bad[..n])
  {
    hide *;
    LayoutIs(l);
    MulMono(n, |l.bad|, l.erasesize);
    if n > 0 {
      MulMono(n - 1, |l.bad|, l.erasesize);
      GoodSize(l, n - 1);
      BlockAdds(l, n - 1);
      CountNext(l.bad, n - 1);
      DistributeOne(l.erasesize, CountBad(l.bad[..n - 1]));
      DistributeOne(l.erasesize, n - 1);
    } else {
      NothingBelow(l);
    }
  }

  lemma NothingBelow(l: Layout)
    requires l.Valid()
    ensures 0 * l.erasesize == 0 && l.Logical(0) == 0 && CountBad(l.bad[..0]) == 0
  {}

  lemma CountNext(bad: seq<bool>, n: nat)
    requires n < |bad|
    ensures CountBad(bad[..n + 1]) == CountBad(bad[..n]) + if bad[n] then 1 else 0
  {
    assert bad[..n + 1][..n] == bad[..n];
  }

  /** Erase block `n` adds its size, or nothing. */
  lemma BlockAdds(l: Layout, n: nat)
    requires l.Valid() && n < |l.bad|
    ensures n * l.erasesize + l.erasesize == (n + 1) * l.erasesize <= l.Size()
    ensures l.Logical((n + 1) * l.erasesize) == l.Logical(n * l.erasesize) + if l.bad[n] then 0 else l.erasesize
  {
    hide Layout.Logical, Layout.GoodBytes;
    var e := l.erasesize;
    var o := n * e;
    MulMono(n + 1, |l.bad|, e);
    ModOfMultiple(n, e);
    ModOfMultiple(1, e);
    StrideInOneBlock(l, o, e);
    LogicalStride(l, o, e);
    DivUnique(o, e, n);
  }

  lemma DistributeOne(e: int, k: int)
    ensures e * (k + 1) == e * k + e
  {}
}
