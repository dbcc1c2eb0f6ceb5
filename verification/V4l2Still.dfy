/** v4l2_still.c: fmt_convert, from packed YUV to planar YUV 4:2:0. */
module V4l2Still {
  import opened Basics

  import Strides

  /** Every other pixel format is taken for YUV444, at four bytes a pixel. */
  datatype Format = YUYV | UYVY | YUV444

  datatype Frame = Frame(format: Format, width: nat, height: nat, stride: nat)

  function Bpp(f: Frame): nat {
    if f.format == YUV444 then 4 else 2
  }

  function YOff(f: Frame): nat {
    if f.format == UYVY then 1 else 0
  }

  function UOff(f: Frame): nat {
    if f.format == UYVY then 0 else 1
  }

  function VOff(f: Frame): nat {
    if f.format == YUYV then 3 else 2
  }

  /** How many of 0, step, 2 step, ... lie below `n`. */
  function Samples(n: nat, step: nat): nat
    requires step == 1 || step == 2
  {
    if step == 1 then n else (n + 1) / 2
  }

  function Columns(f: Frame, step: nat): nat
    requires step == 1 || step == 2
  {
    Samples(f.width, step)
  }

  function PlaneSize(f: Frame, step: nat): nat
    requires step == 1 || step == 2
  {
    Samples(f.height, step) * Columns(f, step)
  }

  function Total(f: Frame): nat {
    PlaneSize(f, 1) + PlaneSize(f, 2) + PlaneSize(f, 2)
  }

  /** Where a component of the pixel at (row, col) is stored. */
  function Index(f: Frame, off: nat, row: nat, col: nat): nat {
    row * f.stride + col * Bpp(f) + off
  }

  function LastOf(n: nat, step: nat): nat
    requires n > 0 && (step == 1 || step == 2)
  {
    (Samples(n, step) - 1) * step
  }

  /** One more than the largest index that is read for a plane. */
  function Reach(f: Frame, off: nat, step: nat): nat
    requires step == 1 || step == 2
  {
    if f.width == 0 || f.height == 0 then 0
    else Index(f, off, LastOf(f.height, step), LastOf(f.width, step)) + 1
  }

  predicate Readable(f: Frame, size: nat) {
    Reach(f, YOff(f), 1) <= size && Reach(f, UOff(f), 2) <= size && Reach(f, VOff(f), 2) <= size
  }

  lemma IndexWithin(f: Frame, off: nat, step: nat, i: nat, k: nat)
    requires (step == 1 || step == 2) && i < Samples(f.height, step) && k < Columns(f, step)
    ensures Index(f, off, i * step, k * step) < Reach(f, off, step)
  {
    Strides.MulMono(i * step, LastOf(f.height, step), f.stride);
    Strides.MulMono(k * step, LastOf(f.width, step), Bpp(f));
  }

  /** One component, sampled every `step` rows and columns, row by row. */
  function Plane(src: seq<Byte>, f: Frame, off: nat, step: nat): (p: seq<Byte>)
    requires (step == 1 || step == 2) && Reach(f, off, step) <= |src|
    ensures |p| == PlaneSize(f, step)
  {
    seq(PlaneSize(f, step), q requires 0 <= q < PlaneSize(f, step) => Sample(src, f, off, step, q))
  }

  function Sample(src: seq<Byte>, f: Frame, off: nat, step: nat, q: nat): Byte
    requires (step == 1 || step == 2) && Reach(f, off, step) <= |src| && q < PlaneSize(f, step)
  {
    PlaceRead(f, off, step, q);
    src[SampleIndex(f, off, step, q)]
  }

  lemma PlaceOf(f: Frame, step: nat, q: nat)
    requires (step == 1 || step == 2) && q < PlaneSize(f, step)
    ensures Columns(f, step) > 0 && q / Columns(f, step) < Samples(f.height, step) && q % Columns(f, step) < Columns(f, step)
  {
    var n, c := Samples(f.height, step), Columns(f, step);
    if c == 0 { assert false; }
    Strides.DivBelow(q, c, n);
  }

  /** The place of sample `q`. */
  function SampleIndex(f: Frame, off: nat, step: nat, q: nat): nat
    requires (step == 1 || step == 2) && q < PlaneSize(f, step)
  {
    PlaceOf(f, step, q);
    Index(f, off, q / Columns(f, step) * step, q % Columns(f, step) * step)
  }

  lemma PlaceRead(f: Frame, off: nat, step: nat, q: nat)
    requires (step == 1 || step == 2) && q < PlaneSize(f, step)
    ensures SampleIndex(f, off, step, q) < Reach(f, off, step)
  {
    hide Columns, Samples, Index, Reach, PlaneSize;
    PlaceOf(f, step, q);
    IndexWithin(f, off, step, q / Columns(f, step), q % Columns(f, step));
  }

  function Planar(src: seq<Byte>, f: Frame): seq<Byte>
    requires Readable(f, |src|)
  {
    Plane(src, f, YOff(f), 1) + Plane(src, f, UOff(f), 2) + Plane(src, f, VOff(f), 2)
  }

  // ---------- the copy ----------

  lemma NextRow(f: Frame, step: nat, i: nat)
    requires (step == 1 || step == 2) && i < Samples(f.height, step)
    ensures (i + 1) * Columns(f, step) == i * Columns(f, step) + Columns(f, step) <= PlaneSize(f, step)
  {
    Strides.MulMono(i + 1, Samples(f.height, step), Columns(f, step));
  }

  lemma SampleIs(src: seq<Byte>, f: Frame, off: nat, step: nat, i: nat, k: nat)
    requires (step == 1 || step == 2) && Reach(f, off, step) <= |src|
    requires i < Samples(f.height, step) && k < Columns(f, step)
    ensures i * Columns(f, step) + k < PlaneSize(f, step) && Index(f, off, i * step, k * step) < |src|
    ensures Sample(src, f, off, step, i * Columns(f, step) + k) == src[Index(f, off, i * step, k * step)]
  {
    hide Reach, Index, Samples, Columns, PlaneSize;
    NextRow(f, step, i);
    IndexWithin(f, off, step, i, k);
    Strides.DivMod(i, k, Columns(f, step));
  }

  /** `was` with `x` written at `start`. */
  function Written(was: seq<Byte>, start: nat, x: seq<Byte>): (now: seq<Byte>)
    requires start + |x| <= |was|
    ensures |now| == |was|
  {
    was[..start] + x + was[start + |x|..]
  }

  /** Places `start..pos` hold the first samples of a plane, all others what they held before. */
  predicate Filled(now: seq<Byte>, was: seq<Byte>, start: nat, pos: nat, src: seq<Byte>, f: Frame, off: nat, step: nat)
    requires (step == 1 || step == 2) && Reach(f, off, step) <= |src|
  {
    && start <= pos <= start + PlaneSize(f, step) <= |was| == |now|
    && forall n :: 0 <= n < |now| ==> now[n] == if start <= n < pos then Sample(src, f, off, step, n - start) else was[n]
  }

  lemma FilledStep(now: seq<Byte>, was: seq<Byte>, start: nat, pos: nat, src: seq<Byte>, f: Frame, off: nat, step: nat)
    requires (step == 1 || step == 2) && Reach(f, off, step) <= |src|
    requires Filled(now, was, start, pos, src, f, off, step) && pos < start + PlaneSize(f, step)
    ensures Filled(now[pos := Sample(src, f, off, step, pos - start)], was, start, pos + 1, src, f, off, step)
  {
    hide Sample, PlaneSize, Reach;
  }

  /** One row: the inner loop. */
  method CopyRow(dest: array<Byte>, from: nat, src: array<Byte>, f: Frame, off: nat, step: nat, row: nat,
                 ghost i: nat, ghost start: nat, ghost was: seq<Byte>)
    returns (pos: nat)
    requires dest != src && (step == 1 || step == 2) && row == i * step && i < Samples(f.height, step)
    requires Reach(f, off, step) <= src.Length
    requires from == start + i * Columns(f, step) && Filled(dest[..], was, start, from, src[..], f, off, step)
    modifies dest
    ensures pos == start + (i + 1) * Columns(f, step)
    ensures Filled(dest[..], was, start, pos, src[..], f, off, step)
  {
    hide Reach, Columns, PlaneSize, Sample, Index, Filled;
    ghost var s := src[..];
    NextRow(f, step, i);
    ColumnsAre(f, step);
    pos := from;
    FilledLength(dest[..], was, start, pos, s, f, off, step);
    ghost var k := 0;
    var col := 0;
    while col < f.width
      invariant k <= Columns(f, step) && col == k * step && pos == start + i * Columns(f, step) + k
      invariant Filled(dest[..], was, start, pos, s, f, off, step)
    {
      SampleIs(s, f, off, step, i, k);
      IndexIs(f, off, row, col);
      FilledStep(dest[..], was, start, pos, s, f, off, step);
      ghost var v := dest[..];
      dest[pos] := src[row * f.stride + col * Bpp(f) + off];
      assert dest[..] == v[pos := s[Index(f, off, row, col)]];
      pos := pos + 1;
      col, k := col + step, k + 1;
    }
  }

  lemma FilledLength(now: seq<Byte>, was: seq<Byte>, start: nat, pos: nat, src: seq<Byte>, f: Frame, off: nat, step: nat)
    requires (step == 1 || step == 2) && Reach(f, off, step) <= |src|
    requires Filled(now, was, start, pos, src, f, off, step)
    ensures start <= pos <= start + PlaneSize(f, step) <= |was| == |now|
  {}

  /** The three pairs of loops of fmt_convert differ in the component and in the step only. */
  method CopyPlane(dest: array<Byte>, start: nat, src: array<Byte>, f: Frame, off: nat, step: nat) returns (pos: nat)
    requires dest != src && (step == 1 || step == 2)
    requires Reach(f, off, step) <= src.Length && start + PlaneSize(f, step) <= dest.Length
    modifies dest
    ensures pos == start + PlaneSize(f, step)
    ensures dest[..] == Written(old(dest[..]), start, Plane(src[..], f, off, step))
  {
    hide Reach, Columns, PlaneSize, Sample, Index, Plane, Filled, Written;
    ghost var was, s := dest[..], src[..];
    ghost var i := 0;
    pos := start;
    RowsDone(f, step);
    FilledNothing(was, start, s, f, off, step);
    var row := 0;
    while row < f.height
      invariant i <= Samples(f.height, step) && row == i * step && pos == start + i * Columns(f, step)
      invariant Filled(dest[..], was, start, pos, s, f, off, step)
    {
      pos := CopyRow(dest, pos, src, f, off, step, row, i, start, was);
      row, i := row + step, i + 1;
    }
    PlaneIs(dest[..], was, start, pos, s, f, off, step);
  }

  lemma FilledNothing(was: seq<Byte>, start: nat, src: seq<Byte>, f: Frame, off: nat, step: nat)
    requires (step == 1 || step == 2) && Reach(f, off, step) <= |src| && start + PlaneSize(f, step) <= |was|
    ensures Filled(was, was, start, start, src, f, off, step)
  {
    hide Sample, Reach, PlaneSize;
  }

  lemma ColumnsAre(f: Frame, step: nat)
    requires step == 1 || step == 2
    ensures Columns(f, step) == Samples(f.width, step)
  {}

  lemma IndexIs(f: Frame, off: nat, row: nat, col: nat)
    ensures Index(f, off, row, col) == row * f.stride + col * Bpp(f) + off
  {}

  lemma RowsDone(f: Frame, step: nat)
    requires step == 1 || step == 2
    ensures Samples(f.height, step) * Columns(f, step) == PlaneSize(f, step) && 0 * Columns(f, step) == 0
  {}

  lemma PlaneIs(now: seq<Byte>, was: seq<Byte>, start: nat, pos: nat, src: seq<Byte>, f: Frame, off: nat, step: nat)
    requires (step == 1 || step == 2) && Reach(f, off, step) <= |src|
    requires pos == start + PlaneSize(f, step) && Filled(now, was, start, pos, src, f, off, step)
    ensures now == Written(was, start, Plane(src, f, off, step))
  {
    hide Sample, PlaneSize, Reach;
  }

  /** fmt_convert: Y, then U, then V, in full; what follows in `dest` is left alone. */
  method FmtConvert(dest: array<Byte>, src: array<Byte>, f: Frame)
    requires dest != src && Readable(f, src.Length) && Total(f) <= dest.Length
    modifies dest
    ensures dest[..] == Planar(src[..], f) + old(dest[Total(f)..])
  {
    hide *;
    ReadableIs(f, src.Length);
    ghost var was, s := dest[..], src[..];
    ghost var y, u, v := Plane(s, f, YOff(f), 1), Plane(s, f, UOff(f), 2), Plane(s, f, VOff(f), 2);
    var pos := CopyPlane(dest, 0, src, f, YOff(f), 1);
    ghost var d1 := dest[..];
    pos := CopyPlane(dest, pos, src, f, UOff(f), 2);
    ghost var d2 := dest[..];
    pos := CopyPlane(dest, pos, src, f, VOff(f), 2);
    PlanarIs(s, f);
    Assembled(was, y, u, v, d1, d2, dest[..]);
  }

  lemma ReadableIs(f: Frame, size: nat)
    requires Readable(f, size)
    ensures Reach(f, YOff(f), 1) <= size && Reach(f, UOff(f), 2) <= size && Reach(f, VOff(f), 2) <= size
    ensures Total(f) == PlaneSize(f, 1) + PlaneSize(f, 2) + PlaneSize(f, 2)
  {}

  lemma PlanarIs(src: seq<Byte>, f: Frame)
    requires Readable(f, |src|)
    ensures Reach(f, YOff(f), 1) <= |src| && Reach(f, UOff(f), 2) <= |src| && Reach(f, VOff(f), 2) <= |src|
    ensures Planar(src, f) == Plane(src, f, YOff(f), 1) + Plane(src, f, UOff(f), 2) + Plane(src, f, VOff(f), 2)
  {}

  /** Three planes written one behind the other. */
  lemma Assembled(was: seq<Byte>, y: seq<Byte>, u: seq<Byte>, v: seq<Byte>, d1: seq<Byte>, d2: seq<Byte>, d3: seq<Byte>)
    requires |y| + |u| + |v| <= |was|
    requires d1 == Written(was, 0, y) && d2 == Written(d1, |y|, u) && d3 == Written(d2, |y| + |u|, v)
    ensures d3 == y + u + v + was[|y| + |u| + |v|..]
  {
    Appended(was, [], y, was, d1);
    Appended(was, y, u, d1, d2);
    Appended(was, y + u, v, d2, d3);
  }

  lemma Appended(was: seq<Byte>, done: seq<Byte>, x: seq<Byte>, d: seq<Byte>, now: seq<Byte>)
    requires |done| + |x| <= |was| && d == done + was[|done|..] && now == Written(d, |done|, x)
    ensures now == (done + x) + was[|done + x|..]
  {
    assert d[..|done|] == done && d[|done| + |x|..] == was[|done| + |x|..];
  }

  // ---------- every byte of the output ----------

  lemma PlaneAt(src: seq<Byte>, f: Frame, off: nat, step: nat, i: nat, k: nat)
    requires (step == 1 || step == 2) && Reach(f, off, step) <= |src|
    requires i < Samples(f.height, step) && k < Columns(f, step)
    ensures i * Columns(f, step) + k < PlaneSize(f, step) && Index(f, off, i * step, k * step) < |src|
    ensures Plane(src, f, off, step)[i * Columns(f, step) + k] == src[Index(f, off, i * step, k * step)]
  {
    hide Reach, Index, Samples, Columns, PlaneSize, Sample;
    SampleIs(src, f, off, step, i, k);
  }

  lemma Behind(x: seq<Byte>, y: seq<Byte>, z: seq<Byte>, n: nat)
    ensures n < |x| ==> (x + y + z)[n] == x[n]
    ensures n < |y| ==> (x + y + z)[|x|..][n] == y[n]
    ensures n < |z| ==> (x + y + z)[|x| + |y|..][n] == z[n]
  {}

  /** Byte (i, k) of the Y plane is the luma of pixel (i, k). */
  lemma LumaAt(src: seq<Byte>, f: Frame, i: nat, k: nat, n: nat, y: nat)
    requires Readable(f, |src|) && i < f.height && k < f.width
    requires n == i * f.width + k
    requires y == i * f.stride + match f.format case YUYV => 2 * k case UYVY => 2 * k + 1 case YUV444 => 4 * k
    ensures n < |Planar(src, f)| && y < |src| && Planar(src, f)[n] == src[y]
  {
    hide *;
    ReadableIs(f, |src|);
    PlanarIs(src, f);
    LumaPlaces(f, i, k);
    PlaneAt(src, f, YOff(f), 1, i, k);
    Behind(Plane(src, f, YOff(f), 1), Plane(src, f, UOff(f), 2), Plane(src, f, VOff(f), 2), n);
  }

  lemma LumaPlaces(f: Frame, i: nat, k: nat)
    ensures Columns(f, 1) == f.width && Samples(f.height, 1) == f.height
    ensures Index(f, YOff(f), i * 1, k * 1) ==
      i * f.stride + match f.format case YUYV => 2 * k case UYVY => 2 * k + 1 case YUV444 => 4 * k
  {}

  /** Byte (i, k) of the U plane and of the V plane are those of the pixel (2i, 2k). */
  lemma ChromaAt(src: seq<Byte>, f: Frame, i: nat, k: nat, n: nat, u: nat, v: nat)
    requires Readable(f, |src|) && 2 * i < f.height && 2 * k < f.width
    requires n == i * ((f.width + 1) / 2) + k
    requires u == 2 * i * f.stride + match f.format case YUYV => 4 * k + 1 case UYVY => 4 * k case YUV444 => 8 * k + 1
    requires v == 2 * i * f.stride + match f.format case YUYV => 4 * k + 3 case UYVY => 4 * k + 2 case YUV444 => 8 * k + 2
    ensures var r, luma, chroma := Planar(src, f), f.height * f.width, (f.height + 1) / 2 * ((f.width + 1) / 2);
      && n < chroma && |r| == luma + chroma + chroma && u < |src| && v < |src|
      && r[luma..][n] == src[u] && r[luma + chroma..][n] == src[v]
  {
    hide *;
    ReadableIs(f, |src|);
    PlanarIs(src, f);
    ChromaPlaces(f, i, k);
    PlaneAt(src, f, UOff(f), 2, i, k);
    PlaneAt(src, f, VOff(f), 2, i, k);
    Behind(Plane(src, f, YOff(f), 1), Plane(src, f, UOff(f), 2), Plane(src, f, VOff(f), 2), n);
  }

  lemma ChromaPlaces(f: Frame, i: nat, k: nat)
    ensures Columns(f, 2) == (f.width + 1) / 2 && PlaneSize(f, 1) == f.height * f.width
    ensures PlaneSize(f, 2) == (f.height + 1) / 2 * ((f.width + 1) / 2)
    ensures 2 * i < f.height ==> i < Samples(f.height, 2)
    ensures 2 * k < f.width ==> k < Columns(f, 2)
    ensures Index(f, UOff(f), i * 2, k * 2) ==
      2 * i * f.stride + match f.format case YUYV => 4 * k + 1 case UYVY => 4 * k case YUV444 => 8 * k + 1
    ensures Index(f, VOff(f), i * 2, k * 2) ==
      2 * i * f.stride + match f.format case YUYV => 4 * k + 3 case UYVY => 4 * k + 2 case YUV444 => 8 * k + 2
  {}

  // ---------- what is read and written ----------

  /** For even sizes the output takes one and a half bytes a pixel. */
  lemma TotalEven(f: Frame)
    requires f.width % 2 == 0 && f.height % 2 == 0
    ensures Total(f) * 2 == f.width * f.height * 3 && PlaneSize(f, 2) * 4 == PlaneSize(f, 1)
  {
    var w, h := f.width / 2, f.height / 2;
    assert f.width == 2 * w && f.height == 2 * h;
    assert f.width * f.height == 4 * (h * w);
  }

  /** One more than the last place that is read in a row. */
  function RowEnd(f: Frame, off: nat, step: nat): nat
    requires f.width > 0 && (step == 1 || step == 2)
  {
    LastOf(f.width, step) * Bpp(f) + off + 1
  }

  /** For every stride: all reads are inside the `height * stride` bytes of the frame exactly
      when the last row has room for its luma, and for its V if that row is sampled, else the
      last two rows have. */
  lemma ReadableExactly(f: Frame)
    ensures Readable(f, f.height * f.stride)
       <==> (f.width > 0 && f.height > 0 ==>
               && RowEnd(f, YOff(f), 1) <= f.stride
               && RowEnd(f, VOff(f), 2) <= if f.height % 2 == 0 then 2 * f.stride else f.stride)
  {
    if f.width > 0 && f.height > 0 {
      hide Reach, LastOf, Bpp;
      ReachIs(f, YOff(f), 1);
      ReachIs(f, UOff(f), 2);
      ReachIs(f, VOff(f), 2);
    }
  }

  /** Given room for the pixels of a row, that is so except in this case: a two-byte format,
      odd width and height, and no room for the V of the last pixel, which the format keeps
      with a neighbour that does not exist. */
  lemma InsideFrameExactly(f: Frame)
    requires f.stride >= f.width * Bpp(f)
    ensures Readable(f, f.height * f.stride)
       <==> !(f.format != YUV444 && f.width % 2 == 1 && f.height % 2 == 1 && f.stride < 2 * f.width + VOff(f) - 1)
  {
    hide Readable, LastOf, Bpp;
    ReadableExactly(f);
    WidthTimes(f);
    if f.width > 0 {
      RowEndIs(f, YOff(f), 1);
      RowEndIs(f, VOff(f), 2);
    }
  }

  /** One pixel in YUYV without padding: its V is behind the frame. */
  lemma OddFrameOverrun()
    ensures var f := Frame(YUYV, 1, 1, 2); f.stride >= f.width * Bpp(f) && !Readable(f, f.height * f.stride)
  {
    InsideFrameExactly(Frame(YUYV, 1, 1, 2));
  }

  /** One byte per pixel and row, which is what the program asks the driver for in YUV444, is
      never enough. */
  lemma OwnStrideOverrun(f: Frame)
    requires f.format == YUV444 && f.stride == f.width > 0 && f.height > 0
    ensures !Readable(f, f.height * f.stride)
  {
    hide Readable, LastOf;
    ReadableExactly(f);
    RowEndIs(f, YOff(f), 1);
    RowEndIs(f, VOff(f), 2);
  }

  lemma WidthTimes(f: Frame)
    ensures Bpp(f) == (if f.format == YUV444 then 4 else 2)
    ensures f.width * Bpp(f) == if f.format == YUV444 then 4 * f.width else 2 * f.width
  {}

  lemma LastIs(n: nat, step: nat)
    requires n > 0 && (step == 1 || step == 2)
    ensures LastOf(n, step) == n - 1 - if step == 2 && n % 2 == 0 then 1 else 0
  {}

  lemma RowEndIs(f: Frame, off: nat, step: nat)
    requires (step == 1 || step == 2) && f.width > 0
    ensures RowEnd(f, off, step)
         == f.width * Bpp(f) - Bpp(f) - (if step == 2 && f.width % 2 == 0 then Bpp(f) else 0) + off + 1
  {
    hide LastOf, Bpp;
    var c := LastOf(f.width, step);
    LastIs(f.width, step);
    Strides.MulSub(f.width, f.width - c, Bpp(f));
  }

  lemma ReachIs(f: Frame, off: nat, step: nat)
    requires (step == 1 || step == 2) && f.width > 0 && f.height > 0
    ensures Reach(f, off, step)
         == f.height * f.stride - (if step == 2 && f.height % 2 == 0 then 2 * f.stride else f.stride) + RowEnd(f, off, step)
  {
    hide LastOf, Bpp;
    var r := LastOf(f.height, step);
    LastIs(f.height, step);
    Strides.MulSub(f.height, f.height - r, f.stride);
  }

  // ---------- conversion undoes packing ----------

  /** Component planes of an image in YUV 4:2:0. */
  datatype Image = Image(y: seq<Byte>, u: seq<Byte>, v: seq<Byte>)

  predicate Fits(p: Image, f: Frame) {
    |p.y| == PlaneSize(f, 1) && |p.u| == |p.v| == PlaneSize(f, 2)
  }

  /** What byte `x` of a row holds, as the names of the formats say: two pixels share four
      bytes in YUYV and UYVY, each has its own four in YUV444. `x` is left of the row's end. */
  datatype Component = Luma(col: nat) | ChromaU(col: nat) | ChromaV(col: nat) | Unused

  function ComponentAt(format: Format, x: nat): Component {
    match format
    case YUYV =>
      if x % 4 == 0 || x % 4 == 2 then Luma(x / 2) else if x % 4 == 1 then ChromaU(x / 4) else ChromaV(x / 4)
    case UYVY =>
      if x % 4 == 1 || x % 4 == 3 then Luma(x / 2) else if x % 4 == 0 then ChromaU(x / 4) else ChromaV(x / 4)
    case YUV444 =>
      if x % 4 == 0 then Luma(x / 4) else if x % 4 == 1 then ChromaU(x / 8) else if x % 4 == 2 then ChromaV(x / 8) else Unused
  }

  function Fetch(plane: seq<Byte>, n: nat): Byte {
    if n < |plane| then plane[n] else 0
  }

  /** The packed byte at (row, x), chroma shared by two rows. */
  function PackedByte(p: Image, f: Frame, row: nat, x: nat): Byte {
    match ComponentAt(f.format, x)
    case Luma(col) => Fetch(p.y, row * Columns(f, 1) + col)
    case ChromaU(col) => Fetch(p.u, row / 2 * Columns(f, 2) + col)
    case ChromaV(col) => Fetch(p.v, row / 2 * Columns(f, 2) + col)
    case Unused => 0
  }

  predicate Packs(src: seq<Byte>, p: Image, f: Frame) {
    && |src| == f.height * f.stride
    && forall row, x :: 0 <= row < f.height && 0 <= x < f.width * Bpp(f) && 0 <= row * f.stride + x < |src|
         ==> src[row * f.stride + x] == PackedByte(p, f, row, x)
  }

  /** Where the sampled components are found in their pixels. */
  lemma SampledLuma(f: Frame, k: nat)
    ensures ComponentAt(f.format, k * Bpp(f) + YOff(f)) == Luma(k)
  {
    match f.format
    case YUYV => Strides.DivMod(k / 2, 2 * (k % 2), 4); Strides.DivMod(k, 0, 2);
    case UYVY => Strides.DivMod(k / 2, 2 * (k % 2) + 1, 4); Strides.DivMod(k, 1, 2);
    case YUV444 => Strides.DivMod(k, 0, 4);
  }

  lemma SampledU(f: Frame, k: nat)
    ensures ComponentAt(f.format, k * 2 * Bpp(f) + UOff(f)) == ChromaU(k)
  {
    match f.format
    case YUYV => Strides.DivMod(k, 1, 4);
    case UYVY => Strides.DivMod(k, 0, 4);
    case YUV444 => Strides.DivMod(2 * k, 1, 4); Strides.DivMod(k, 1, 8);
  }

  lemma SampledV(f: Frame, k: nat)
    ensures ComponentAt(f.format, k * 2 * Bpp(f) + VOff(f)) == ChromaV(k)
  {
    match f.format
    case YUYV => Strides.DivMod(k, 3, 4);
    case UYVY => Strides.DivMod(k, 2, 4);
    case YUV444 => Strides.DivMod(2 * k, 2, 4); Strides.DivMod(k, 2, 8);
  }

  datatype Channel = Y | U | V

  function Step(ch: Channel): nat {
    if ch == Y then 1 else 2
  }

  function Off(f: Frame, ch: Channel): nat {
    match ch case Y => YOff(f) case U => UOff(f) case V => VOff(f)
  }

  function PlaneFor(p: Image, ch: Channel): seq<Byte> {
    match ch case Y => p.y case U => p.u case V => p.v
  }

  lemma SampledByte(p: Image, f: Frame, ch: Channel, i: nat, k: nat)
    ensures PackedByte(p, f, i * Step(ch), k * Step(ch) * Bpp(f) + Off(f, ch)) == Fetch(PlaneFor(p, ch), i * Columns(f, Step(ch)) + k)
  {
    SampledLuma(f, k);
    SampledU(f, k);
    SampledV(f, k);
    hide ComponentAt, Bpp, YOff, UOff, VOff, Fetch, Columns;
  }

  /** The sampled bytes lie in their row. */
  lemma InRow(f: Frame, ch: Channel, i: nat, k: nat)
    requires f.width % 2 == 0 && i < Samples(f.height, Step(ch)) && k < Columns(f, Step(ch))
    ensures i * Step(ch) < f.height && k * Step(ch) * Bpp(f) + Off(f, ch) < f.width * Bpp(f)
  {
    Strides.MulMono(k * Step(ch) + Step(ch), f.width, Bpp(f));
  }

  lemma PlaneOfPacked(src: seq<Byte>, p: Image, f: Frame, ch: Channel)
    requires Reach(f, Off(f, ch), Step(ch)) <= |src| && Packs(src, p, f) && Fits(p, f) && f.width % 2 == 0
    ensures Plane(src, f, Off(f, ch), Step(ch)) == PlaneFor(p, ch)
  {
    hide PackedByte, Reach, Sample, Columns, Samples, PlaneSize, Bpp, Off, Packs, PlaneFor;
    PlaneLength(p, f, ch);
    forall q | 0 <= q < PlaneSize(f, Step(ch))
      ensures Sample(src, f, Off(f, ch), Step(ch), q) == PlaneFor(p, ch)[q]
    {
      PlaceOf(f, Step(ch), q);
      SampleOfPacked(src, p, f, ch, q / Columns(f, Step(ch)), q % Columns(f, Step(ch)));
      Recompose(q, Columns(f, Step(ch)));
    }
  }

  lemma Recompose(q: nat, c: nat)
    requires c > 0
    ensures q / c * c + q % c == q
  {}

  lemma PlaneLength(p: Image, f: Frame, ch: Channel)
    requires Fits(p, f)
    ensures |PlaneFor(p, ch)| == PlaneSize(f, Step(ch))
  {}

  lemma SampleOfPacked(src: seq<Byte>, p: Image, f: Frame, ch: Channel, i: nat, k: nat)
    requires Reach(f, Off(f, ch), Step(ch)) <= |src| && Packs(src, p, f) && Fits(p, f) && f.width % 2 == 0
    requires i < Samples(f.height, Step(ch)) && k < Columns(f, Step(ch))
    ensures var q := i * Columns(f, Step(ch)) + k;
      q < |PlaneFor(p, ch)| && q < PlaneSize(f, Step(ch)) && Sample(src, f, Off(f, ch), Step(ch), q) == PlaneFor(p, ch)[q]
  {
    hide PackedByte, Reach, Sample, Index, Columns, Samples, PlaneSize, Bpp, Off, Packs, PlaneFor;
    SampleIs(src, f, Off(f, ch), Step(ch), i, k);
    IndexIs(f, Off(f, ch), i * Step(ch), k * Step(ch));
    SampledByte(p, f, ch, i, k);
    InRow(f, ch, i, k);
    PackedAt(src, p, f, i * Step(ch), k * Step(ch) * Bpp(f) + Off(f, ch));
    PlaneLength(p, f, ch);
  }

  lemma PackedAt(src: seq<Byte>, p: Image, f: Frame, row: nat, x: nat)
    requires Packs(src, p, f) && row < f.height && x < f.width * Bpp(f) && row * f.stride + x < |src|
    ensures src[row * f.stride + x] == PackedByte(p, f, row, x)
  {
    hide PackedByte, Bpp;
  }

  /** Converting a packed image of even size gives back its planes. */
  lemma ConversionUndoesPacking(src: seq<Byte>, p: Image, f: Frame)
    requires f.width % 2 == 0 && f.height % 2 == 0 && f.stride >= f.width * Bpp(f)
    requires Fits(p, f) && Packs(src, p, f)
    ensures Readable(f, |src|) && Planar(src, f) == p.y + p.u + p.v
  {
    hide Reach, Plane, Fits, Columns, Bpp, YOff, UOff, VOff, PackedByte;
    InsideFrameExactly(f);
    PlaneOfPacked(src, p, f, Y);
    PlaneOfPacked(src, p, f, U);
    PlaneOfPacked(src, p, f, V);
  }
}
