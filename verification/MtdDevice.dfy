/** The flash device behind update_flash.c: what its ioctls, pread and pwrite do.

    Erasing sets a whole erase block to 0xff. Programming can only clear bits, so it ANDs
    the data into what is there. */
module MtdDevice {
  import opened Basics

  import opened Checksum
  import opened MtdLayout

  const ERASED: byte := 0xff

  /** Programming a cell can only clear bits. */
  function Burn(cell: byte, data: byte): byte {
    cell & data
  }

  class Mtd {
    const isNAND: bool
    const writesize: nat
    const layout: Layout
    const flash: array<byte>

    ghost predicate Valid() {
      && layout.Valid()
      && writesize > 0 && layout.erasesize % writesize == 0
      && flash.Length == layout.Size()
      // only NAND reports bad blocks
      && (!isNAND ==> true !in layout.bad)
    }

    constructor (isNAND: bool, writesize: nat, layout: Layout, content: seq<byte>)
      requires layout.Valid() && writesize > 0 && layout.erasesize % writesize == 0
      requires !isNAND ==> true !in layout.bad
      requires |content| == layout.Size()
      ensures Valid() && fresh(flash) && flash[..] == content
      ensures this.isNAND == isNAND && this.writesize == writesize && this.layout == layout
    {
      this.isNAND, this.writesize, this.layout := isNAND, writesize, layout;
      flash := new byte[|content|](i requires 0 <= i < |content| => content[i]);
    }

    /** MEMGETBADBLOCK; the kernel refuses offsets outside the partition. */
    method IsBadBlock(offset: nat) returns (bad: bool)
      requires Valid() && offset < layout.Size()
      ensures bad == !layout.GoodAt(offset)
    {
      layout.BlockInRange(offset);
      bad := layout.bad[offset / layout.erasesize];
    }

    /** MEMERASE of one erase block. */
    method EraseBlock(start: nat)
      requires Valid() && start < layout.Size() && start % layout.erasesize == 0
      requires layout.GoodAt(start)
      requires start + layout.erasesize <= layout.Size()
      modifies flash
      ensures forall x :: 0 <= x < flash.Length ==>
        flash[x] == if start <= x < start + layout.erasesize then ERASED else old(flash[x])
    {
      forall x | start <= x < start + layout.erasesize {
        flash[x] := ERASED;
      }
    }

    /** pwrite of a buffer inside one good erase block. */
    method PWrite(buf: array<byte>, offset: nat)
      requires Valid() && buf != flash && buf.Length > 0
      requires isNAND ==> offset % writesize == 0 && buf.Length % writesize == 0
      requires InOneBlock(layout, offset, buf.Length) && layout.GoodAt(offset)
      modifies flash
      ensures forall x :: 0 <= x < flash.Length ==>
        flash[x] == if offset <= x < offset + buf.Length then Burn(old(flash[x]), buf[x - offset]) else old(flash[x])
    {
      forall x | offset <= x < offset + buf.Length {
        flash[x] := Burn(flash[x], buf[x - offset]);
      }
    }

    /** pread of a whole buffer. */
    method PRead(buf: array<byte>, offset: nat)
      requires Valid() && buf != flash && offset + buf.Length <= layout.Size()
      modifies buf
      ensures buf[..] == flash[offset..offset + buf.Length]
    {
      forall i | 0 <= i < buf.Length {
        buf[i] := flash[offset + i];
      }
    }
  }

  /** read(2) on a regular file whose content does not change: short only at the end. */
  method Read(file: seq<byte>, pos: nat, buf: array<byte>) returns (n: nat)
    requires pos <= |file|
    modifies buf
    ensures n == Min(buf.Length, |file| - pos)
    ensures buf[..n] == file[pos..pos + n]
    ensures forall i :: n <= i < buf.Length ==> buf[i] == old(buf[i])
  {
    n := Min(buf.Length, |file| - pos);
    forall i | 0 <= i < n {
      buf[i] := file[pos + i];
    }
  }

  // ---------- what erasing and programming do to a whole partition ----------

  /** The first `n` good bytes erased. */
  function Erased(l: Layout, c: seq<byte>, n: nat): (r: seq<byte>)
    requires l.Valid() && |c| == l.Size()
    ensures |r| == |c|
  {
    seq(|c|, x requires 0 <= x < |c| => if l.GoodAt(x) && l.Logical(x) < n then ERASED else c[x])
  }

  /** `image` programmed into the first good bytes. */
  function Programmed(l: Layout, c: seq<byte>, image: seq<byte>): (r: seq<byte>)
    requires l.Valid() && |c| == l.Size()
    ensures |r| == |c|
  {
    seq(|c|, x requires 0 <= x < |c| =>
      if l.GoodAt(x) && l.Logical(x) < |image| then Burn(c[x], image[l.Logical(x)]) else c[x])
  }

  lemma EraseStep(l: Layout, c: seq<byte>, cur: seq<byte>, next: seq<byte>, o: nat)
    requires l.Valid() && |c| == |cur| == |next| == l.Size()
    requires InOneBlock(l, o, l.erasesize) && l.GoodAt(o)
    requires cur == Erased(l, c, l.Logical(o))
    requires forall x :: 0 <= x < |c| ==>
      next[x] == if o <= x < o + l.erasesize then ERASED else cur[x]
    ensures next == Erased(l, c, l.Logical(o + l.erasesize))
  {
    var e := l.erasesize;
    LogicalStride(l, o, e);
    forall x | 0 <= x < |c|
      ensures next[x] == Erased(l, c, l.Logical(o + e))[x]
    {
      PlaceInStride(l, o, e, x);
    }
  }

  /** Inside a good stride logical addresses run along with flash offsets; outside they
      are on the same side of it. */
  lemma PlaceInStride(l: Layout, o: nat, s: nat, x: nat)
    requires l.Valid() && s > 0 && InOneBlock(l, o, s) && l.GoodAt(o) && x < l.Size()
    ensures o <= x < o + s ==> l.GoodAt(x) && l.Logical(x) == l.Logical(o) + (x - o)
    ensures x < o && l.GoodAt(x) ==> l.Logical(x) < l.Logical(o)
    ensures o + s <= x ==> l.Logical(o) + s <= l.Logical(x)
  {
    if x < o {
      LogicalMonotone(l, x, o);
    } else if x < o + s {
      PartOfStride(l, o, s, x - o);
      if o < x { LogicalStride(l, o, x - o); }
    } else {
      LogicalStride(l, o, s);
      LogicalMonotone(l, o + s, x);
    }
  }

  lemma ProgramStep(l: Layout, c: seq<byte>, cur: seq<byte>, next: seq<byte>, o: nat, image: seq<byte>, page: seq<byte>)
    requires l.Valid() && |c| == |cur| == |next| == l.Size()
    requires page != [] && InOneBlock(l, o, |page|) && l.GoodAt(o)
    requires |image| == l.Logical(o)
    requires cur == Programmed(l, c, image)
    requires forall x :: 0 <= x < |c| ==>
      next[x] == if o <= x < o + |page| then Burn(cur[x], page[x - o]) else cur[x]
    ensures next == Programmed(l, c, image + page)
  {
    forall x | 0 <= x < |c|
      ensures next[x] == Programmed(l, c, image + page)[x]
    {
      PlaceInStride(l, o, |page|, x);
    }
  }

  /** The good bytes from logical position `n` on. */
  function GoodTail(l: Layout, c: seq<byte>, n: nat): seq<byte>
    requires l.Valid() && |c| == l.Size() && n <= l.Logical(l.Size())
  {
    GoodBytesLength(l, c);
    l.GoodBytes(c)[n..]
  }

  /** Erasing the first `n` good bytes and programming an image no longer than that stores
      exactly the image, leaves the rest of the erased part blank, and changes nothing else:
      not the good bytes behind it and no byte of a bad block. */
  lemma EraseThenProgram(l: Layout, c: seq<byte>, n: nat, image: seq<byte>)
    requires l.Valid() && |c| == l.Size()
    requires |image| <= n <= l.Logical(l.Size())
    ensures var r := Programmed(l, Erased(l, c, n), image);
      && l.GoodBytes(r) == image + seq(n - |image|, _ => ERASED) + GoodTail(l, c, n)
      && forall x :: 0 <= x < |c| && !l.GoodAt(x) ==> r[x] == c[x]
  {
    var r := Programmed(l, Erased(l, c, n), image);
    GoodBytesLength(l, r);
    GoodBytesLength(l, c);
    forall k | 0 <= k < l.Logical(l.Size())
      ensures l.GoodBytes(r)[k] == (image + seq(n - |image|, _ => ERASED) + GoodTail(l, c, n))[k]
    {
      var x := LogicalOnto(l, k, l.Size());
      GoodByteAt(l, r, x);
      GoodByteAt(l, c, x);
      if k < |image| { BurnErased(image[k]); }
    }
  }

  /** What a good stride of the device holds is the same stretch of the good bytes. */
  lemma StrideContent(l: Layout, c: seq<byte>, o: nat, s: nat)
    requires l.Valid() && |c| == l.Size() && s > 0 && InOneBlock(l, o, s) && l.GoodAt(o)
    ensures l.Logical(o) + s <= |l.GoodBytes(c)|
    ensures l.GoodBytes(c)[l.Logical(o)..l.Logical(o) + s] == c[o..o + s]
  {
    GoodBytesStride(l, c, o, s);
    GoodBytesLength(l, c[..o]);
    GoodBytesPrefix(l, c, o + s);
    var g, h := l.GoodBytes(c), l.GoodBytes(c[..o + s]);
    assert h[l.Logical(o)..l.Logical(o) + s] == c[o..o + s];
  }

  lemma BurnErased(b: byte)
    ensures Burn(ERASED, b) == b
  {}
}
