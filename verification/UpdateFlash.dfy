/** update_flash.c: erasing, writing, verifying and checksumming one partition. */
module UpdateFlash {
  import opened Basics

  import opened Checksum
  import opened Strides
  import opened MtdLayout
  import opened MtdDevice

  const IO_BLOCK_SIZE: nat := 65536
  const NODE_SIZE: nat := 12          // sizeof(struct jffs2_unknown_node)

  // ---------- the image that goes to flash ----------

  function LittleEndian32(v: bv32): (r: seq<byte>)
    ensures |r| == 4
  {
    [(v & 0xff) as byte, ((v >> 8) & 0xff) as byte, ((v >> 16) & 0xff) as byte, (v >> 24) as byte]
  }

  /** The header checksum covers magic, node type and total length. */
  function PaddingHeader(len: nat): (r: seq<byte>)
    ensures |r| == 8
  {
    [0x85, 0x19, 0x04, 0x20] + LittleEndian32((len % 0x1_0000_0000) as bv32)
  }

  function PaddingNode(len: nat): (r: seq<byte>)
    ensures |r| == NODE_SIZE
  {
    var header := PaddingHeader(len);
    header + LittleEndian32(Xor(Crc(0xffff_ffff, header), 0xffff_ffff))
  }

  function Fill(b: byte, n: nat): (r: seq<byte>)
    ensures |r| == n
  {
    seq(n, _ => b)
  }

  /** What follows the file bytes in the last page. */
  function Padding(used: nat, page: nat, jffs2: bool): (r: seq<byte>)
    requires used <= page
    ensures |r| == page - used
  {
    if jffs2 && used + NODE_SIZE < page then PaddingNode(page - used) + Fill(0, page - used - NODE_SIZE)
    else Fill(ERASED, page - used)
  }

  /** The file, its last page padded. */
  function Image(file: seq<byte>, page: nat, jffs2: bool): (r: seq<byte>)
    requires page > 0
    ensures |r| == RoundUp(|file|, page) && file <= r
  {
    if |file| % page == 0 then file else file + Padding(|file| % page, page, jffs2)
  }

  /** Behind the file an image is blank unless it is JFFS2. */
  lemma BlankImage(file: seq<byte>, page: nat, k: nat)
    requires page > 0 && |file| <= k < |Image(file, page, false)|
    ensures Image(file, page, false)[k] == ERASED
  {}

  /** In a JFFS2 image a padding node follows the file if more than its twelve bytes are left
      on the page: magic 0x1985, node type 0x2004, what is left on the page and the header
      checksum, least significant byte first, then zeros. Else 0xff follows. */
  lemma PaddingBytes(file: seq<byte>, page: nat, k: nat)
    requires page > 0 && |file| % page != 0 && |file| <= k < |Image(file, page, true)|
    ensures var r, n := Image(file, page, true), |file|;
      var left := page - n % page;
      |r| == n + left &&
      if left <= 12 then r[k] == 0xff
      else
        && r[n] == 0x85 && r[n + 1] == 0x19 && r[n + 2] == 0x04 && r[n + 3] == 0x20
        && Word(r[n + 4], r[n + 5], r[n + 6], r[n + 7]) == (left % 0x1_0000_0000) as bv32
        && Word(r[n + 8], r[n + 9], r[n + 10], r[n + 11]) == Feed(0, Bits(r[n..n + 8]))
        && (k >= n + 12 ==> r[k] == 0)
  {
    hide *;
    PaddingAt(file, page, k);
    var r, n, left := Image(file, page, true), |file|, page - |file| % page;
    if left > 12 {
      PaddingNodeBytes(left);
      var node := PaddingNode(left);
      forall i | 0 <= i < 12
        ensures r[n + i] == node[i]
      {
        assert r[n..n + 12][i] == r[n + i];
      }
      assert r[n..n + 8] == node[..8];
    }
  }

  lemma PaddingAt(file: seq<byte>, page: nat, k: nat)
    requires page > 0 && |file| % page != 0 && |file| <= k < |Image(file, page, true)|
    ensures var r, n, left := Image(file, page, true), |file|, page - |file| % page;
      |r| == n + left &&
      if left <= 12 then r[k] == 0xff
      else r[n..n + 12] == PaddingNode(left) && (k >= n + 12 ==> r[k] == 0)
  {
    hide PaddingNode, RoundUp;
  }

  lemma PaddingNodeBytes(len: nat)
    ensures var r := PaddingNode(len);
      && r[0] == 0x85 && r[1] == 0x19 && r[2] == 0x04 && r[3] == 0x20
      && Word(r[4], r[5], r[6], r[7]) == (len % 0x1_0000_0000) as bv32
      && Word(r[8], r[9], r[10], r[11]) == Feed(0, Bits(r[..8]))
  {
    hide Crc, Feed, Bits, Xor, LittleEndian32, Word;
    var h := PaddingHeader(len);
    WordBack((len % 0x1_0000_0000) as bv32);
    WordBack(Feed(0, Bits(h)));
    BareRegister(h);
    assert PaddingNode(len)[..8] == h;
  }

  /** Four bytes as a number, least significant first. */
  function Word(b0: byte, b1: byte, b2: byte, b3: byte): bv32 {
    b0 as bv32 | (b1 as bv32 << 8) | (b2 as bv32 << 16) | (b3 as bv32 << 24)
  }

  /** The bytes of the number, the first one in its lowest eight bits. */
  lemma WordBytes(b0: byte, b1: byte, b2: byte, b3: byte)
    ensures var w := Word(b0, b1, b2, b3);
      w & 0xff == b0 as bv32 && (w >> 8) & 0xff == b1 as bv32 && (w >> 16) & 0xff == b2 as bv32 && w >> 24 == b3 as bv32
  {}

  lemma WordBack(v: bv32)
    ensures var s := LittleEndian32(v); Word(s[0], s[1], s[2], s[3]) == v
  {}

  /** The padding reaches to the end of the page of the last file byte. */
  lemma ImageEnds(file: seq<byte>, page: nat, jffs2: bool, k: nat)
    requires page > 0
    ensures k < |file| ==> k < |Image(file, page, jffs2)| && Image(file, page, jffs2)[k] == file[k]
    ensures |file| <= k ==>
      (k < |Image(file, page, jffs2)| <==> |file| > 0 && k / page == (|file| - 1) / page)
    ensures |file| <= k < |Image(file, page, jffs2)| && !jffs2 ==> Image(file, page, jffs2)[k] == ERASED
  {
    if 0 < |file| <= k { PageEnd(|file|, page, k); }
    if |file| == 0 { RoundUpUnique(0, page, 0); }
    if |file| <= k < |Image(file, page, jffs2)| && !jffs2 { BlankImage(file, page, k); }
    hide RoundUp, Padding;
  }

  lemma ImageOfMorePages(file: seq<byte>, t: nat, r: nat, page: nat, jffs2: bool)
    requires page > 0 && t % page == 0 && t + r <= |file| && 0 < r <= page
    ensures Image(file[..t + r], page, jffs2) == file[..t] + PageContent(file, t, r, page, jffs2)
  {
    hide Padding, RoundUp, Image;
    assert file[..t + r] == file[..t] + file[t..t + r];
    if r == page {
      AddAlignedSelf(t, page);
      ImageAligned(file[..t + r], page, jffs2);
    } else {
      DivMod(t / page, r, page);
      assert t == t / page * page;
      ImageOfShortPage(file[..t + r], page, jffs2);
    }
  }

  lemma ImageOfShortPage(file: seq<byte>, page: nat, jffs2: bool)
    requires page > 0 && |file| % page != 0
    ensures Image(file, page, jffs2) == file + Padding(|file| % page, page, jffs2)
  {
    hide Padding, RoundUp;
  }

  /** What one turn of the write loop puts into the page buffer. */
  function PageContent(file: seq<byte>, t: nat, r: nat, page: nat, jffs2: bool): (c: seq<byte>)
    requires t + r <= |file| && r <= page
    ensures |c| == page
  {
    file[t..t + r] + if r == page then [] else Padding(r, page, jffs2)
  }

  /** The image grows by whole pages. */
  lemma ImageStep(file: seq<byte>, t: nat, r: nat, page: nat, jffs2: bool)
    requires page > 0 && t % page == 0 && t + r <= |file| && 0 < r <= page
    ensures Image(file[..t + r], page, jffs2) == Image(file[..t], page, jffs2) + PageContent(file, t, r, page, jffs2)
  {
    hide Image, Padding, RoundUp;
    ImageAligned(file[..t], page, jffs2);
    ImageOfMorePages(file, t, r, page, jffs2);
  }

  lemma ImageAligned(file: seq<byte>, page: nat, jffs2: bool)
    requires page > 0 && |file| % page == 0
    ensures Image(file, page, jffs2) == file
  {}

  lemma AddAlignedSelf(t: nat, page: nat)
    requires page > 0 && t % page == 0
    ensures (t + page) % page == 0
  {
    assert page % page == 0 by { ModOfMultiple(1, page); }
    AddAligned(t, page, page);
  }

  /** MtdPartInitJFFS2Node for a padding node, at `at` in the page buffer. */
  method InitPaddingNode(buf: array<byte>, at: nat, len: nat)
    requires at + NODE_SIZE <= buf.Length
    modifies buf
    ensures buf[at..at + NODE_SIZE] == PaddingNode(len)
    ensures forall i :: 0 <= i < buf.Length && !(at <= i < at + NODE_SIZE) ==> buf[i] == old(buf[i])
  {
    hide LittleEndian32, Crc, Xor;
    ghost var before := buf[..];
    var header := PaddingHeader(len);
    forall i | 0 <= i < 8 {
      buf[at + i] := header[i];
    }
    assert buf[at..at + 8] == header;
    var crc := Crc32(0xffff_ffff, buf, at, 8);
    var tail := LittleEndian32(Xor(crc, 0xffff_ffff));
    forall i | 0 <= i < 4 {
      buf[at + 8 + i] := tail[i];
    }
    assert buf[at..at + NODE_SIZE] == header + tail;
  }

  /** The stored header checksum is the one JFFS2 computes: its register starts at 0 and
      nothing is inverted. */
  lemma PaddingNodeChecksum(len: nat)
    ensures PaddingNode(len)[8..] == LittleEndian32(Feed(0, Bits(PaddingNode(len)[..8])))
  {
    hide LittleEndian32, Crc, Xor, Feed, Bits;
    BareRegister(PaddingHeader(len));
    assert PaddingNode(len)[..8] == PaddingHeader(len);
  }

  /** The end of a short page: 0xff, or for JFFS2 a padding node and zeros if a node fits. */
  method PadPage(buf: array<byte>, used: nat, jffs2: bool)
    requires used < buf.Length
    modifies buf
    ensures buf[..] == old(buf[..used]) + Padding(used, buf.Length, jffs2)
  {
    hide PaddingNode;
    ghost var before := buf[..used];
    if jffs2 && used + NODE_SIZE < buf.Length {
      forall i | used <= i < buf.Length {
        buf[i] := 0;
      }
      InitPaddingNode(buf, used, buf.Length - used);
      assert buf[..used] == before;
      assert buf[used + NODE_SIZE..] == Fill(0, buf.Length - used - NODE_SIZE);
      Assemble(buf[..], before, PaddingNode(buf.Length - used), Fill(0, buf.Length - used - NODE_SIZE));
    } else {
      forall i | used <= i < buf.Length {
        buf[i] := ERASED;
      }
      assert buf[..used] == before;
    }
  }

  lemma Assemble(s: seq<byte>, x: seq<byte>, y: seq<byte>, z: seq<byte>)
    requires |s| == |x| + |y| + |z|
    requires s[..|x|] == x && s[|x|..|x| + |y|] == y && s[|x| + |y|..] == z
    ensures s == x + (y + z)
  {}

  /** One turn of the write loop up to pwrite: read a page, add it to the checksum, pad it. */
  method TakePage(file: seq<byte>, pos: nat, buf: array<byte>, crc: bv32, known: bool, jffs2: bool) returns (n: nat, crc': bv32)
    requires pos <= |file| && buf.Length > 0
    requires known || Summed(crc, file, pos)
    modifies buf
    ensures n == Min(buf.Length, |file| - pos) && pos + n <= |file| && (n == 0 <==> pos == |file|)
    ensures n > 0 ==> buf[..] == PageContent(file, pos, n, buf.Length, jffs2)
    ensures known || Summed(crc', file, pos + n)
  {
    hide Crc, Padding, RoundUp;
    n := Read(file, pos, buf);
    crc' := crc;
    if n > 0 {
      if !known {
        crc' := Crc32(crc, buf, 0, n);
        CrcMore(file, pos, n);
      }
      if n < buf.Length {
        PadPage(buf, n, jffs2);
      }
    }
  }

  /** MemCmp: the first difference, or -1. */
  method MemCmp(s1: array<byte>, s2: array<byte>, size: nat) returns (offset: int)
    requires size <= s1.Length && size <= s2.Length
    ensures offset == -1 ==> s1[..size] == s2[..size]
    ensures offset != -1 ==> 0 <= offset < size && s1[offset] != s2[offset]
    ensures offset != -1 ==> s1[..offset] == s2[..offset]
  {
    offset := 0;
    while offset < size
      invariant 0 <= offset <= size
      invariant s1[..offset] == s2[..offset]
    {
      if s2[offset] != s1[offset] { return; }
      offset := offset + 1;
    }
    offset := -1;
  }

  // ---------- checksums of files ----------

  /** CalcCRC32OfFile. */
  method CalcCRC32OfFile(file: seq<byte>) returns (crc: bv32)
    ensures crc == Crc(0, file)
  {
    hide Crc;
    var buf := new byte[IO_BLOCK_SIZE](_ => 0);
    var pos := 0;
    crc := 0;
    CrcNothing(0);
    while true
      invariant pos <= |file|
      invariant crc == Crc(0, file[..pos])
      decreases |file| - pos
    {
      var n := Read(file, pos, buf);
      if n == 0 { break; }
      crc := Crc32(crc, buf, 0, n);
      CrcMore(file, pos, n);
      pos := pos + n;
    }
    assert file[..pos] == file;
  }

  /** `crc` is the checksum of the first `t` bytes of the file. */
  ghost predicate Summed(crc: bv32, file: seq<byte>, t: nat) {
    t <= |file| && crc == Crc(0, file[..t])
  }

  lemma SumStart(file: seq<byte>)
    ensures Summed(0, file, 0)
  {
    hide Crc;
    CrcNothing(0);
  }

  lemma CrcMore(file: seq<byte>, pos: nat, n: nat)
    requires pos + n <= |file|
    ensures Crc(0, file[..pos + n]) == Crc(Crc(0, file[..pos]), file[pos..pos + n])
  {
    hide Crc;
    assert file[..pos + n] == file[..pos] + file[pos..pos + n];
    CrcAppend(0, file[..pos], file[pos..pos + n]);
  }

  // ---------- one partition ----------

  class MtdPartition {
    const dev: Mtd
    var iSize: nat            // good size
    var iFileSize: nat
    var iPageSize: nat
    var uiBadBlocks: nat
    var cEraseAll: bool
    var cIsJFFS2: bool
    var cChecksumSet: bool
    var cChecksumCalculated: bool
    var uiCRC32: bv32

    /** What MtdPartInit leaves behind when it does not stop with an error. */
    ghost predicate Ready()
      reads this
    {
      && dev.Valid()
      && iSize == dev.layout.Logical(dev.layout.Size())
      && iPageSize == (if dev.isNAND then dev.writesize else dev.layout.erasesize)
      && iFileSize <= iSize
    }

    /** The partition's good bytes in order. */
    ghost function Good(): seq<byte>
      requires dev.Valid()
      reads dev.flash
    {
      dev.layout.GoodBytes(dev.flash[..])
    }

    constructor (dev: Mtd)
      ensures this.dev == dev
      ensures !cChecksumSet && !cChecksumCalculated
    {
      this.dev := dev;
      iSize, iFileSize, iPageSize, uiBadBlocks := 0, 0, 0, 0;
      cEraseAll, cIsJFFS2, cChecksumSet, cChecksumCalculated := false, false, false, false;
      uiCRC32 := 0;
    }

    /** MtdPartInit and MtdPartUseFile: sizes, bad blocks, and whether the file fits. Whether
        the image is JFFS2 is known from its type (`jffs2`). */
    method Init(fileSize: nat, eraseAll: bool, jffs2: bool, verifyOnly: bool) returns (ok: bool)
      requires dev.Valid()
      modifies this
      ensures uiBadBlocks == CountBad(dev.layout.bad)
      ensures iSize == dev.layout.Logical(dev.layout.Size())
      ensures iFileSize == fileSize && cIsJFFS2 == jffs2
      ensures cEraseAll <==> eraseAll || (jffs2 && !verifyOnly)
      ensures ok <==> fileSize <= iSize
      ensures iPageSize == if dev.isNAND then dev.writesize else dev.layout.erasesize
      ensures ok ==> Ready()
      ensures cChecksumSet == old(cChecksumSet) && cChecksumCalculated == old(cChecksumCalculated) && uiCRC32 == old(uiCRC32)
    {
      var l := dev.layout;
      TakeBadBlocks(l);
      iSize := l.Size();
      uiBadBlocks := 0;
      if dev.isNAND {
        uiBadBlocks := CountBadBlocks(dev);
      } else {
        NoBad(l.bad);
      }
      iPageSize := if dev.isNAND then dev.writesize else l.erasesize;
      if uiBadBlocks > 0 {
        iSize := iSize - l.erasesize * uiBadBlocks;
      }
      iFileSize := fileSize;
      cIsJFFS2 := jffs2;
      cEraseAll := eraseAll;
      if !verifyOnly && cIsJFFS2 {
        cEraseAll := true;
      }
      ok := fileSize <= iSize;
    }

    /** MtdPartErase. */
    method Erase()
      requires Ready()
      modifies dev.flash
      ensures dev.flash[..] == Erased(dev.layout, old(dev.flash[..]), EraseLength())
      // a byte is erased if it is good and erase-all is set or its block holds bytes of the file
      ensures forall x :: 0 <= x < dev.flash.Length ==>
        dev.flash[x] ==
          if dev.layout.GoodAt(x) && (cEraseAll || dev.layout.Logical(dev.layout.BlockBase(x)) < iFileSize)
          then 0xff else old(dev.flash[x])
    {
      var l := dev.layout;
      ghost var c := dev.flash[..];
      var iEraseSize := if cEraseAll then iSize else iFileSize;
      var start := 0;
      var iBytesErasedTotal := 0;
      NothingErased(l, c);
      hide *;
      while iBytesErasedTotal < iEraseSize
        invariant dev.Valid() && start <= l.Size() && start % l.erasesize == 0
        invariant iBytesErasedTotal == l.Logical(start)
        invariant iBytesErasedTotal % l.erasesize == 0 && iBytesErasedTotal < iEraseSize + l.erasesize
        invariant dev.flash[..] == Erased(l, c, l.Logical(start))
        decreases l.Size() - start
      {
        Inside(l, start);
        EraseBlockStride(l, start);
        var bad := dev.IsBadBlock(start);
        if !bad {
          ghost var cur := dev.flash[..];
          dev.EraseBlock(start);
          EraseStep(l, c, cur, dev.flash[..], start);
          AddAlignedSelf(iBytesErasedTotal, l.erasesize);
          iBytesErasedTotal := iBytesErasedTotal + l.erasesize;
        }
        AddAlignedSelf(start, l.erasesize);
        start := start + l.erasesize;
      }
      RoundUpUnique(iEraseSize, l.erasesize, iBytesErasedTotal);
      ErasedEverywhere(c);
    }

    /** MtdPartWrite. It fails ("Filesize changed") when the file is not as long as MtdPartInit
        saw it, except when a file that filled the partition has grown. */
    method Write(file: seq<byte>) returns (ok: bool)
      requires Ready()
      modifies dev.flash, this`uiCRC32, this`cChecksumSet, this`cChecksumCalculated
      ensures ok <==> |file| == iFileSize || (iFileSize == iSize && |file| > iSize)
      ensures dev.flash[..] == Programmed(dev.layout, old(dev.flash[..]), Image(file[..Min(|file|, iSize)], iPageSize, cIsJFFS2))
      ensures ok && !old(cChecksumCalculated) ==>
        cChecksumSet && cChecksumCalculated && uiCRC32 == Crc(0, file[..iFileSize])
      ensures !ok || old(cChecksumCalculated) ==>
        uiCRC32 == old(uiCRC32) && cChecksumSet == old(cChecksumSet) && cChecksumCalculated == old(cChecksumCalculated)
    {
      hide *;
      PageDivides();
      SizesFit();
      SizeNoticed(|file|, iFileSize, iSize);
      var iBytesReadTotal, crc := WritePages(dev, file, iPageSize, cChecksumCalculated, cIsJFFS2);
      ok := iFileSize == iBytesReadTotal;
      if !cChecksumCalculated { SumPrefix(crc, file, iBytesReadTotal); }
      if ok && !cChecksumCalculated {
        uiCRC32 := crc;
        cChecksumSet := true;
        cChecksumCalculated := true;
      }
    }

    /** MtdPartVerify. */
    method Verify(file: seq<byte>) returns (res: bool)
      requires Ready()
      ensures PageOk() && (res <==> Matches(Good(), file, iFileSize, iPageSize, cIsJFFS2))
      // true means: the size is right (a file that filled the partition may have grown), the
      // good bytes start with it, and unless JFFS2 its last page is blank behind it
      ensures |Good()| == iSize
      ensures res <==>
        && (|file| == iFileSize || (iFileSize == iSize && |file| > iSize))
        && Good()[..iFileSize] == file[..iFileSize]
        && (!cIsJFFS2 ==>
              forall k :: 0 < iFileSize <= k < iSize && k / iPageSize == (iFileSize - 1) / iPageSize ==> Good()[k] == 0xff)
    {
      PageDivides();
      GoodBytesLength(dev.layout, dev.flash[..]);
      res := VerifyPages(dev, file, iFileSize, iPageSize, cIsJFFS2);
      MatchesMeans(Good(), file, iFileSize, iPageSize, cIsJFFS2);
      hide Layout.GoodBytes, Layout.Logical, Matches, RoundUp;
    }

    /** MtdPartCheckCRC32: reads back by erase block, cutting off the tail of the last one. */
    method CheckCRC32() returns (ok: bool)
      requires Ready()
      ensures |Good()| == iSize
      ensures ok <==> Crc(0, Good()[..iFileSize]) == uiCRC32
    {
      GoodBytesLength(dev.layout, dev.flash[..]);
      var crc := ChecksumReadback(dev, iFileSize);
      hide Crc;
      ok := crc == uiCRC32;
    }

    /** Damage of the stored file inside any window of at most four bytes makes that check fail. */
    lemma DamageNoticed(file: seq<byte>, p: seq<byte>, x: seq<byte>, y: seq<byte>, s: seq<byte>)
      requires Ready() && iFileSize == |file| && uiCRC32 == Crc(0, file)
      requires file == p + x + s && |x| == |y| <= 4 && x != y && p + y + s <= Good()
      ensures iFileSize <= |Good()| && Crc(0, Good()[..iFileSize]) != uiCRC32
    {
      hide *;
      SizesFit();
      WindowDetected(0, p, x, y, s);
      assert Good()[..iFileSize] == p + y + s;
    }

    /** MtdPartVerifyFile: sets the checksum, or compares it with the given one. */
    method VerifyFile(file: seq<byte>) returns (ok: bool)
      requires dev.Valid()
      modifies this`uiCRC32, this`cChecksumSet, this`cChecksumCalculated
      ensures cChecksumSet && cChecksumCalculated == (old(cChecksumCalculated) || !old(cChecksumSet))
      ensures ok <==> (old(cChecksumSet) ==> old(uiCRC32) == Crc(0, file))
      ensures uiCRC32 == if old(cChecksumSet) then old(uiCRC32) else Crc(0, file)
    {
      hide *;
      DeviceShape(dev);
      LayoutShape(dev.layout);
      var crc, _ := SumBlocks(file, dev.layout.erasesize);
      ok := SetOrCompare(crc);
    }

    /** MtdPartCopyFile: the same while copying the file. */
    method CopyFile(file: seq<byte>) returns (ok: bool, dst: seq<byte>)
      requires dev.Valid()
      modifies this`uiCRC32, this`cChecksumSet, this`cChecksumCalculated
      ensures ok <==> |file| == iFileSize && (old(cChecksumSet) ==> old(uiCRC32) == Crc(0, file))
      ensures |file| == iFileSize ==>
        cChecksumSet && cChecksumCalculated == (old(cChecksumCalculated) || !old(cChecksumSet))
      ensures |file| == iFileSize ==> uiCRC32 == if old(cChecksumSet) then old(uiCRC32) else Crc(0, file)
      ensures |file| != iFileSize ==>
        uiCRC32 == old(uiCRC32) && cChecksumSet == old(cChecksumSet) && cChecksumCalculated == old(cChecksumCalculated)
      ensures dst == file
    {
      hide *;
      DeviceShape(dev);
      LayoutShape(dev.layout);
      var crc;
      crc, dst := SumBlocks(file, dev.layout.erasesize);
      if iFileSize != |dst| { return false, dst; }
      ok := SetOrCompare(crc);
    }

    /** How both end: SET_CRC32 when no checksum was given, else MtdPartCompareCRC32. */
    method SetOrCompare(crc: bv32) returns (ok: bool)
      modifies this`uiCRC32, this`cChecksumSet, this`cChecksumCalculated
      ensures cChecksumSet && cChecksumCalculated == (old(cChecksumCalculated) || !old(cChecksumSet))
      ensures ok <==> (old(cChecksumSet) ==> old(uiCRC32) == crc)
      ensures uiCRC32 == if old(cChecksumSet) then old(uiCRC32) else crc
    {
      if !cChecksumSet {
        uiCRC32 := crc;
        cChecksumSet := true;
        cChecksumCalculated := true;
        ok := true;
      } else {
        ok := crc == uiCRC32;
      }
    }

    ghost predicate PageOk()
      reads this
    {
      iPageSize > 0
    }

    /** After the command line has been read: the file fits, and it has a checksum if -c was
        given. */
    ghost predicate Parsed(file: seq<byte>, hasChecksum: bool)
      reads this
    {
      Ready() && iFileSize == |file| && cChecksumSet == hasChecksum && !cChecksumCalculated
    }

    /** Ready to be erased: a checksum that is known by now is that of the file. */
    ghost predicate Due(file: seq<byte>, hasChecksum: bool)
      reads this
    {
      && Ready() && iFileSize == |file| && (hasChecksum ==> cChecksumSet)
      && (cChecksumCalculated || cChecksumSet ==> cChecksumSet && uiCRC32 == Crc(0, file))
    }

    /** Erased and written; `c` is what was on flash before. */
    ghost predicate Done(file: seq<byte>, c: seq<byte>)
      reads this, dev.flash
    {
      && Ready() && PageOk() && iFileSize == |file| && |c| == dev.layout.Size()
      && cChecksumSet && uiCRC32 == Crc(0, file)
      && dev.flash[..] == Updated(file, c)
    }

    /** The first pass of DoMtdUpdate, before anything is erased; `useTmp` and `noTypeCheck`
        are -t and -i. */
    method Prepare(file: seq<byte>, hasChecksum: bool, useTmp: bool, noTypeCheck: bool) returns (ok: bool, image: seq<byte>)
      requires Parsed(file, hasChecksum)
      modifies this`uiCRC32, this`cChecksumSet, this`cChecksumCalculated
      // it succeeds unless a checksum was given that is not the file's
      ensures ok <==> (hasChecksum ==> old(uiCRC32) == Crc(0, file))
      ensures ok ==> image == file && Due(file, hasChecksum)
    {
      hide Crc;
      ok := true;
      image := file;
      if useTmp {
        ok, image := CopyFile(file);
      } else if hasChecksum || !noTypeCheck {
        ok := VerifyFile(file);
      }
    }

    /** The second pass: erase, write, and check. None of its errors occurs. */
    method Flash(file: seq<byte>, hasChecksum: bool, verify: bool) returns (ok: bool)
      requires Due(file, hasChecksum)
      modifies dev.flash, this`uiCRC32, this`cChecksumSet, this`cChecksumCalculated
      ensures ok && Done(file, old(dev.flash[..]))
      // the good bytes start with the file, and bad blocks and blocks without file bytes keep
      // what they held
      ensures file <= Good() && uiCRC32 == Crc(0, file)
      ensures forall x :: 0 <= x < dev.flash.Length ==>
        (dev.layout.GoodAt(x) && (cEraseAll || dev.layout.Logical(dev.layout.BlockBase(x)) < |file|)) || dev.flash[x] == old(dev.flash[x])
    {
      hide Crc, Programmed, Erased, Image, Matches, GoodTail, RoundUp, Min;
      SizesFit();
      Erase();
      MinOfFit(file, iSize);
      ok := Write(file);
      UpdateStores(file, old(dev.flash[..]));
      OthersKeep(file, old(dev.flash[..]));
      GoodNow();
      if !ok { return; }
      if verify {
        ok := Verify(file);
      } else if hasChecksum {
        ok := CheckCRC32();
      }
    }

    /** What an update leaves on flash, whatever was there before (`c`): the file reads back
        byte for byte, every page programmed lies in what was erased, and both checks pass. */
    lemma UpdateStores(file: seq<byte>, c: seq<byte>)
      requires Ready() && iFileSize == |file| && |c| == dev.layout.Size()
      ensures PageOk() && |Image(file, iPageSize, cIsJFFS2)| <= EraseLength() <= iSize
      ensures var g := dev.layout.GoodBytes(Updated(file, c));
        && file <= g
        && g == Image(file, iPageSize, cIsJFFS2) + seq(EraseLength() - |Image(file, iPageSize, cIsJFFS2)|, _ => ERASED)
                + GoodTail(dev.layout, c, EraseLength())
        && Matches(g, file, |file|, iPageSize, cIsJFFS2)
        && Crc(0, g[..|file|]) == Crc(0, file)
      ensures forall x :: 0 <= x < |c| && !dev.layout.GoodAt(x) ==> Updated(file, c)[x] == c[x]
    {
      hide Crc, Programmed, Erased, Padding;
      PageDivides();
      var l, p, image := dev.layout, iPageSize, Image(file, iPageSize, cIsJFFS2);
      EraseCovers(l, p, |file|, if cEraseAll then iSize else iFileSize);
      EraseThenProgram(l, c, EraseLength(), image);
      var g := dev.layout.GoodBytes(Updated(file, c));
      assert g[..|file|] == file;
      if !cIsJFFS2 { ImageBlankEnd(file, p, g); }
    }

    /** Every byte after an update, by its place. With `k` the number of good bytes before it:
        the file; then, on the page of the last file byte, the padding; then 0xff in the good
        blocks that were erased, those in which bytes of the file lie, or all of them with
        erase-all; and what was there before in all others. */
    lemma UpdatedBytes(file: seq<byte>, c: seq<byte>, x: nat)
      requires Ready() && iFileSize == |file| && |c| == dev.layout.Size() && x < |c|
      ensures PageOk()
      ensures !dev.layout.GoodAt(x) ==> Updated(file, c)[x] == c[x]
      ensures dev.layout.GoodAt(x) ==>
        var k := dev.layout.Logical(x);
        if k < |file| then Updated(file, c)[x] == file[k]
        else if |file| > 0 && k / iPageSize == (|file| - 1) / iPageSize then
          && k < |Image(file, iPageSize, cIsJFFS2)| && Updated(file, c)[x] == Image(file, iPageSize, cIsJFFS2)[k]
          && (!cIsJFFS2 ==> Updated(file, c)[x] == 0xff)
        else
          Updated(file, c)[x] ==
            if cEraseAll || dev.layout.Logical(dev.layout.BlockBase(x)) < |file| then 0xff else c[x]
    {
      PageDivides();
      ErasedAt(c, x);
      if dev.layout.GoodAt(x) {
        UpdatedGood(file, c, x);
        ImageEnds(file, iPageSize, cIsJFFS2, dev.layout.Logical(x));
      }
      hide Crc, RoundUp, Padding, Layout.GoodAt, Layout.Logical, Burn, Image, Erased;
    }

    lemma DoneMeans(file: seq<byte>, c: seq<byte>)
      requires Done(file, c)
      ensures Ready() && file <= Good() && uiCRC32 == Crc(0, file) && dev.flash.Length == |c|
      ensures forall x :: 0 <= x < dev.flash.Length ==>
        (dev.layout.GoodAt(x) && (cEraseAll || dev.layout.Logical(dev.layout.BlockBase(x)) < |file|)) || dev.flash[x] == c[x]
    {
      hide Crc, Programmed, Erased, Image, Matches, GoodTail, RoundUp, Min, Updated, Layout.GoodAt, Layout.Logical, Layout.BlockBase;
      UpdateStores(file, c);
      OthersKeep(file, c);
    }

    /** Bad blocks, and blocks without file bytes unless all are erased, keep what they held. */
    lemma OthersKeep(file: seq<byte>, c: seq<byte>)
      requires Ready() && PageOk() && iFileSize == |file| && |c| == dev.layout.Size() && dev.flash[..] == Updated(file, c)
      ensures forall x :: 0 <= x < dev.flash.Length ==>
        (dev.layout.GoodAt(x) && (cEraseAll || dev.layout.Logical(dev.layout.BlockBase(x)) < |file|)) || dev.flash[x] == c[x]
    {
      forall x | 0 <= x < dev.flash.Length
        ensures (dev.layout.GoodAt(x) && (cEraseAll || dev.layout.Logical(dev.layout.BlockBase(x)) < |file|)) || dev.flash[x] == c[x]
      {
        KeptAt(file, c, x);
        assert dev.flash[..][x] == dev.flash[x];
      }
      hide Updated, Layout.GoodAt, Layout.Logical, Layout.BlockBase, RoundUp;
    }

    lemma KeptAt(file: seq<byte>, c: seq<byte>, x: nat)
      requires Ready() && PageOk() && iFileSize == |file| && |c| == dev.layout.Size() && x < |c|
      ensures (dev.layout.GoodAt(x) && (cEraseAll || dev.layout.Logical(dev.layout.BlockBase(x)) < |file|))
        || Updated(file, c)[x] == c[x]
    {
      ErasedAt(c, x);
      if dev.layout.GoodAt(x) {
        UpdatedGood(file, c, x);
        UpdateStores(file, c);
        if dev.layout.Logical(x) < |Image(file, iPageSize, cIsJFFS2)| {
          EraseReaches(dev.layout, if cEraseAll then iSize else iFileSize, x);
        }
      }
      hide Crc, Padding, Layout.GoodAt, Layout.Logical, Layout.BlockBase, Burn, Image, Layout.GoodBytes, RoundUp, Erased, Matches;
    }

    /** What is programmed lies in what was erased. */
    lemma UpdatedGood(file: seq<byte>, c: seq<byte>, x: nat)
      requires Ready() && PageOk() && iFileSize == |file| && |c| == dev.layout.Size() && x < |c| && dev.layout.GoodAt(x)
      ensures var k, image := dev.layout.Logical(x), Image(file, iPageSize, cIsJFFS2);
        Updated(file, c)[x] == if k < |image| then image[k] else Erased(dev.layout, c, EraseLength())[x]
    {
      hide RoundUp, Padding, Layout.GoodAt, Layout.Logical, Burn, Image;
      PageDivides();
      EraseCovers(dev.layout, iPageSize, |file|, if cEraseAll then iSize else iFileSize);
      var k, image := dev.layout.Logical(x), Image(file, iPageSize, cIsJFFS2);
      if k < |image| { BurnErased(image[k]); }
    }

    /** The partition's content after erasing and writing, from content `c`. */
    ghost function Updated(file: seq<byte>, c: seq<byte>): seq<byte>
      requires Ready() && PageOk() && |c| == dev.layout.Size()
      reads this
      ensures |Updated(file, c)| == |c|
    {
      Programmed(dev.layout, Erased(dev.layout, c, EraseLength()), Image(file, iPageSize, cIsJFFS2))
    }

    lemma GoodNow()
      requires dev.Valid()
      ensures Good() == dev.layout.GoodBytes(dev.flash[..])
    {}

    lemma SizesFit()
      requires Ready()
      ensures PageOk() && dev.Valid() && iFileSize <= iSize && iSize == dev.layout.Logical(dev.layout.Size())
    {
      PageDivides();
    }

    lemma PageDivides()
      requires Ready()
      ensures iPageSize > 0 && dev.layout.erasesize % iPageSize == 0
      ensures dev.isNAND ==> iPageSize == dev.writesize
    {
      ModOfMultiple(1, dev.layout.erasesize);
    }

    lemma ErasedEverywhere(c: seq<byte>)
      requires Ready() && |c| == dev.layout.Size() && dev.flash[..] == Erased(dev.layout, c, EraseLength())
      ensures forall x :: 0 <= x < dev.flash.Length ==>
        dev.flash[x] ==
          if dev.layout.GoodAt(x) && (cEraseAll || dev.layout.Logical(dev.layout.BlockBase(x)) < iFileSize) then 0xff else c[x]
    {
      forall x | 0 <= x < dev.flash.Length
        ensures dev.flash[x] ==
          if dev.layout.GoodAt(x) && (cEraseAll || dev.layout.Logical(dev.layout.BlockBase(x)) < iFileSize) then 0xff else c[x]
      {
        ErasedAt(c, x);
        assert dev.flash[..][x] == dev.flash[x];
      }
      hide Erased, Layout.GoodAt, Layout.Logical, Layout.BlockBase, RoundUp;
    }

    lemma ErasedAt(c: seq<byte>, x: nat)
      requires Ready() && |c| == dev.layout.Size() && x < |c|
      ensures Erased(dev.layout, c, EraseLength())[x] ==
        if dev.layout.GoodAt(x) && (cEraseAll || dev.layout.Logical(dev.layout.BlockBase(x)) < iFileSize) then 0xff else c[x]
    {
      hide RoundUp, Layout.GoodAt, Layout.Logical;
      if dev.layout.GoodAt(x) { EraseReaches(dev.layout, if cEraseAll then iSize else iFileSize, x); }
    }

    /** The bytes MtdPartErase erases: whole blocks for the file, or everything. */
    ghost function EraseLength(): nat
      requires Ready()
      reads this
    {
      RoundUp(if cEraseAll then iSize else iFileSize, dev.layout.erasesize)
    }
  }

  /** The counting loop of MtdPartInit. */
  method CountBadBlocks(dev: Mtd) returns (count: nat)
    requires dev.Valid()
    ensures count == CountBad(dev.layout.bad)
  {
    var l := dev.layout;
    var iOffset := 0;
    ghost var i := 0;
    count := 0;
    while iOffset < l.Size()
      invariant i <= |l.bad| && iOffset == i * l.erasesize
      invariant count == CountBad(l.bad[..i])
      decreases |l.bad| - i
    {
      BlockStart(l, i);
      hide Layout.Size, Layout.GoodAt;
      assert l.bad[..i + 1][..i] == l.bad[..i];
      var bad := dev.IsBadBlock(iOffset);
      if bad { count := count + 1; }
      iOffset := iOffset + l.erasesize;
      i := i + 1;
    }
    BlockStart(l, i);
    assert l.bad[..i] == l.bad;
  }

  lemma TakeBadBlocks(l: Layout)
    requires l.Valid()
    ensures l.Logical(l.Size()) == l.Size() - l.erasesize * CountBad(l.bad)
  {
    assert l.bad[..|l.bad|] == l.bad;
    GoodSize(l, |l.bad|);
  }

  lemma BlockStart(l: Layout, i: nat)
    requires l.Valid() && i <= |l.bad|
    ensures i < |l.bad| <==> i * l.erasesize < l.Size()
    ensures i < |l.bad| ==> l.GoodAt(i * l.erasesize) == !l.bad[i]
    ensures (i + 1) * l.erasesize == i * l.erasesize + l.erasesize
  {
    if i < |l.bad| {
      MulMono(i + 1, |l.bad|, l.erasesize);
      DivUnique(i * l.erasesize, l.erasesize, i);
    }
  }

  lemma {:induction false} NoBad(bad: seq<bool>)
    requires true !in bad
    ensures CountBad(bad) == 0
  {
    if bad != [] { NoBad(bad[..|bad| - 1]); }
  }

  lemma NothingErased(l: Layout, c: seq<byte>)
    requires l.Valid() && |c| == l.Size()
    ensures Erased(l, c, l.Logical(0)) == c
  {}

  /** Fewer good bytes below than in all: the offset is inside the partition. */
  lemma Inside(l: Layout, x: nat)
    requires l.Valid() && x <= l.Size() && l.Logical(x) < l.Logical(l.Size())
    ensures x < l.Size()
  {}

  /** One erase block from an aligned offset: no overrun, and what it adds. */
  lemma EraseBlockStride(l: Layout, o: nat)
    requires l.Valid() && o < l.Size() && o % l.erasesize == 0
    ensures InOneBlock(l, o, l.erasesize) && o + l.erasesize <= l.Size()
    ensures l.Logical(o + l.erasesize) == l.Logical(o) + if l.GoodAt(o) then l.erasesize else 0
  {
    assert l.erasesize % l.erasesize == 0 by { ModOfMultiple(1, l.erasesize); }
    StrideInOneBlock(l, o, l.erasesize);
    LogicalStride(l, o, l.erasesize);
  }

  lemma {:induction false} LogicalAligned(l: Layout, o: nat, p: nat)
    requires l.Valid() && p > 0 && l.erasesize % p == 0 && o % p == 0 && o <= l.Size()
    ensures l.Logical(o) % p == 0
  {
    if o > 0 {
      PreviousMultiple(o, p);
      LogicalAligned(l, o - p, p);
      StrideInOneBlock(l, o - p, p);
      LogicalStride(l, o - p, p);
      AddAlignedSelf(l.Logical(o - p), p);
      hide *;
    }
  }

  lemma PageStride(l: Layout, o: nat, p: nat)
    requires l.Valid() && p > 0 && l.erasesize % p == 0 && o % p == 0 && o < l.Size()
    ensures InOneBlock(l, o, p) && o + p <= l.Size()
  {
    StrideInOneBlock(l, o, p);
  }

  // ---------- the write loop ----------

  /** The loop of MtdPartWrite: page by page over the partition, skipping bad blocks, until
      the file or the partition ends. */
  method WritePages(dev: Mtd, file: seq<byte>, p: nat, known: bool, jffs2: bool) returns (iBytesReadTotal: nat, crc: bv32)
    requires dev.Valid() && p > 0 && dev.layout.erasesize % p == 0
    requires dev.isNAND ==> p == dev.writesize
    modifies dev.flash
    ensures iBytesReadTotal == Min(|file|, dev.layout.Logical(dev.layout.Size()))
    ensures dev.flash[..] == Programmed(dev.layout, old(dev.flash[..]), Image(file[..iBytesReadTotal], p, jffs2))
    ensures known || Summed(crc, file, iBytesReadTotal)
  {
    hide *;
    DeviceShape(dev);
    var l := dev.layout;
    ghost var c := dev.flash[..];
    var pucBuffer := new byte[p];
    var iCurrentOffs: nat := 0;
    iBytesReadTotal, crc := 0, 0;
    WriteStart(l, p, jffs2, c, file);
    SumStart(file);
    while iCurrentOffs < l.Size()
      invariant WriteState(l, p, jffs2, c, file, iCurrentOffs, iBytesReadTotal, dev.flash[..])
      invariant known || Summed(crc, file, iBytesReadTotal)
      decreases l.Size() - iCurrentOffs
    {
      WriteStateFacts(l, p, jffs2, c, file, iCurrentOffs, iBytesReadTotal, dev.flash[..]);
      PageStride(l, iCurrentOffs, p);
      var bad := dev.IsBadBlock(iCurrentOffs);
      if !bad {
        var iBytesRead;
        iBytesRead, crc := WritePage(dev, file, p, known, jffs2, pucBuffer, iCurrentOffs, iBytesReadTotal, crc, c);
        if iBytesRead == 0 { break; }
        iBytesReadTotal := iBytesReadTotal + iBytesRead;
      } else {
        WriteSkip(l, p, jffs2, c, file, iCurrentOffs, iBytesReadTotal, dev.flash[..]);
      }
      iCurrentOffs := iCurrentOffs + p;
    }
    WriteDone(l, p, jffs2, c, file, iCurrentOffs, iBytesReadTotal, dev.flash[..]);
  }

  /** The body of that loop on a good page; 0 bytes read means the file is at its end. */
  method WritePage(dev: Mtd, file: seq<byte>, p: nat, known: bool, jffs2: bool, pucBuffer: array<byte>,
                   o: nat, t: nat, crc: bv32, ghost c: seq<byte>)
    returns (n: nat, crc': bv32)
    requires dev.Valid() && o < dev.layout.Size() && dev.layout.GoodAt(o) && InOneBlock(dev.layout, o, p)
    requires dev.isNAND ==> p == dev.writesize
    requires pucBuffer.Length == p && pucBuffer != dev.flash
    requires WriteState(dev.layout, p, jffs2, c, file, o, t, dev.flash[..]) && (known || Summed(crc, file, t))
    modifies dev.flash, pucBuffer
    ensures n == 0 ==> t == |file| && dev.flash[..] == old(dev.flash[..]) && (known || Summed(crc', file, t))
    ensures n > 0 ==> WriteState(dev.layout, p, jffs2, c, file, o + p, t + n, dev.flash[..]) && (known || Summed(crc', file, t + n))
  {
    var l := dev.layout;
    WriteStateFacts(l, p, jffs2, c, file, o, t, dev.flash[..]);
    OwnMultiple(p);
    hide *;
    n, crc' := TakePage(file, t, pucBuffer, crc, known, jffs2);
    if n > 0 {
      ghost var before := dev.flash[..];
      dev.PWrite(pucBuffer, o);
      WriteStep(l, p, jffs2, c, file, o, t, n, before, pucBuffer[..], dev.flash[..]);
    }
  }

  lemma DeviceShape(dev: Mtd)
    requires dev.Valid()
    ensures dev.layout.Valid() && dev.flash.Length == dev.layout.Size()
  {}

  lemma LayoutShape(l: Layout)
    requires l.Valid()
    ensures l.erasesize > 0
  {}

  lemma OwnMultiple(p: nat)
    requires p > 0
    ensures p % p == 0
  {
    ModOfMultiple(1, p);
  }

  /** The write loop at offset `o` with `t` file bytes taken, on content `cur`: all good
      bytes below `o` carry the image of those bytes, and nothing else changed. */
  ghost predicate WriteState(l: Layout, p: nat, jffs2: bool, c: seq<byte>, file: seq<byte>, o: nat, t: nat, cur: seq<byte>) {
    && l.Valid() && p > 0 && l.erasesize % p == 0
    && |c| == l.Size() && o <= l.Size() && o % p == 0 && t <= |file|
    && |Image(file[..t], p, jffs2)| == l.Logical(o)
    && (t < |file| ==> t == l.Logical(o))
    && cur == Programmed(l, c, Image(file[..t], p, jffs2))
  }

  lemma WriteStateFacts(l: Layout, p: nat, jffs2: bool, c: seq<byte>, file: seq<byte>, o: nat, t: nat, cur: seq<byte>)
    requires WriteState(l, p, jffs2, c, file, o, t, cur)
    ensures p > 0 && l.Valid() && o <= l.Size() && o % p == 0 && t <= |file| && |c| == |cur| == l.Size()
  {}

  lemma WriteStart(l: Layout, p: nat, jffs2: bool, c: seq<byte>, file: seq<byte>)
    requires l.Valid() && p > 0 && l.erasesize % p == 0 && |c| == l.Size()
    ensures WriteState(l, p, jffs2, c, file, 0, 0, c)
  {
    assert file[..0] == [];
  }

  lemma WriteStep(l: Layout, p: nat, jffs2: bool, c: seq<byte>, file: seq<byte>, o: nat, t: nat, r: nat,
                  cur: seq<byte>, page: seq<byte>, next: seq<byte>)
    requires WriteState(l, p, jffs2, c, file, o, t, cur) && o < l.Size() && l.GoodAt(o)
    requires InOneBlock(l, o, p)
    requires 0 < r && t + r <= |file| && r == Min(p, |file| - t)
    requires page == PageContent(file, t, r, p, jffs2)
    requires |next| == |c| && forall x :: 0 <= x < |c| ==>
      next[x] == if o <= x < o + p then Burn(cur[x], page[x - o]) else cur[x]
    ensures WriteState(l, p, jffs2, c, file, o + p, t + r, next)
  {
    var image := Image(file[..t], p, jffs2);
    LogicalAligned(l, o, p);
    LogicalStride(l, o, p);
    AddAlignedSelf(o, p);
    ImageStep(file, t, r, p, jffs2);
    hide Image, PageContent, Programmed;
    ProgramStep(l, c, cur, next, o, image, page);
  }

  lemma WriteSkip(l: Layout, p: nat, jffs2: bool, c: seq<byte>, file: seq<byte>, o: nat, t: nat, cur: seq<byte>)
    requires WriteState(l, p, jffs2, c, file, o, t, cur) && o < l.Size() && !l.GoodAt(o)
    requires InOneBlock(l, o, p)
    ensures WriteState(l, p, jffs2, c, file, o + p, t, cur)
  {
    LogicalStride(l, o, p);
    AddAlignedSelf(o, p);
    hide Image, Programmed;
  }

  lemma WriteDone(l: Layout, p: nat, jffs2: bool, c: seq<byte>, file: seq<byte>, o: nat, t: nat, cur: seq<byte>)
    requires WriteState(l, p, jffs2, c, file, o, t, cur)
    requires o >= l.Size() || t == |file|
    ensures t == Min(|file|, l.Logical(l.Size()))
    ensures cur == Programmed(l, c, Image(file[..t], p, jffs2))
  {
    LogicalMonotone(l, o, l.Size());
    hide Programmed;
  }

  // ---------- verifying ----------

  predicate Blank(g: seq<byte>, a: nat, b: nat) {
    forall k :: a <= k < b && k < |g| ==> g[k] == ERASED
  }

  /** What MtdPartVerify is for: the good bytes `g` start with the whole file, and unless the
      image is JFFS2 the rest of the last page is blank. */
  predicate Matches(g: seq<byte>, file: seq<byte>, fileSize: nat, page: nat, jffs2: bool)
    requires page > 0
  {
    var n := Min(|file|, |g|);
    n == fileSize && g[..n] == file[..n] && (jffs2 || Blank(g, n, RoundUp(n, page)))
  }

  lemma MatchesMeans(g: seq<byte>, file: seq<byte>, fileSize: nat, page: nat, jffs2: bool)
    requires page > 0 && fileSize <= |g|
    ensures Matches(g, file, fileSize, page, jffs2) <==>
      && (|file| == fileSize || (fileSize == |g| && |file| > |g|))
      && g[..fileSize] == file[..fileSize]
      && (!jffs2 ==> forall k :: 0 < fileSize <= k < |g| && k / page == (fileSize - 1) / page ==> g[k] == ERASED)
  {
    hide RoundUp;
    forall k | 0 < fileSize <= k < |g|
      ensures k < RoundUp(fileSize, page) <==> k / page == (fileSize - 1) / page
    {
      PageEnd(fileSize, page, k);
    }
    if fileSize == 0 { RoundUpUnique(0, page, 0); }
  }

  /** MtdPartVerify on flash content that is only read. */
  method VerifyPages(dev: Mtd, file: seq<byte>, fileSize: nat, p: nat, jffs2: bool) returns (res: bool)
    requires dev.Valid() && p > 0 && dev.layout.erasesize % p == 0
    ensures res <==> Matches(dev.layout.GoodBytes(dev.flash[..]), file, fileSize, p, jffs2)
  {
    hide *;
    DeviceShape(dev);
    var l := dev.layout;
    ghost var c := dev.flash[..];
    var pucBufferSrc, pucBufferMtd := new byte[p], new byte[p];
    var iOffsMtd: nat, iBytesReadTotal: nat := 0, 0;
    VerifyStart(l, p, jffs2, c, file);
    while iOffsMtd < l.Size()
      invariant VerifyState(l, p, jffs2, c, file, iOffsMtd, iBytesReadTotal)
      invariant dev.flash[..] == c
      decreases l.Size() - iOffsMtd
    {
      VerifyStateFacts(l, p, jffs2, c, file, iOffsMtd, iBytesReadTotal);
      PageStride(l, iOffsMtd, p);
      var bad := dev.IsBadBlock(iOffsMtd);
      if !bad {
        var n, same := VerifyPage(dev, file, fileSize, p, jffs2, pucBufferSrc, pucBufferMtd, iOffsMtd, iBytesReadTotal);
        if n == 0 { break; }
        if !same { return false; }
        iBytesReadTotal := iBytesReadTotal + n;
      } else {
        VerifySkip(l, p, jffs2, c, file, iOffsMtd, iBytesReadTotal);
      }
      iOffsMtd := iOffsMtd + p;
    }
    VerifyDone(l, p, jffs2, c, file, fileSize, iOffsMtd, iBytesReadTotal);
    res := fileSize == iBytesReadTotal;
  }

  /** The body of that loop on a good page; 0 bytes read means the file is at its end. */
  method VerifyPage(dev: Mtd, file: seq<byte>, fileSize: nat, p: nat, jffs2: bool, src: array<byte>, mtd: array<byte>, o: nat, t: nat)
    returns (n: nat, same: bool)
    requires dev.Valid() && o < dev.layout.Size() && dev.layout.GoodAt(o)
    requires InOneBlock(dev.layout, o, p) && o + p <= dev.layout.Size()
    requires src.Length == mtd.Length == p && src != dev.flash && mtd != dev.flash && src != mtd
    requires VerifyState(dev.layout, p, jffs2, dev.flash[..], file, o, t)
    modifies src, mtd
    ensures n == 0 <==> t == |file|
    ensures n > 0 && same ==> VerifyState(dev.layout, p, jffs2, dev.flash[..], file, o + p, t + n)
    ensures n > 0 && !same ==> !Matches(dev.layout.GoodBytes(dev.flash[..]), file, fileSize, p, jffs2)
  {
    hide *;
    DeviceShape(dev);
    var l := dev.layout;
    ghost var c := dev.flash[..];
    VerifyStateFacts(l, p, jffs2, c, file, o, t);
    n := Read(file, t, src);
    MinFacts(p, |file| - t);
    same := true;
    if n == 0 { return; }
    dev.PRead(mtd, o);
    assert dev.flash[..] == c;
    PageInGood(l, p, jffs2, c, file, o, t);
    var i := MemCmp(src, mtd, n);
    if i != -1 {
      DataMismatch(l.GoodBytes(c), file, fileSize, p, jffs2, t, n, i, src[..n], mtd[..]);
      return n, false;
    }
    if !jffs2 && n < p {
      var j := FirstNonBlank(mtd, n);
      if j < p {
        SlackMismatch(l.GoodBytes(c), file, fileSize, p, t, n, j, mtd[..]);
        return n, false;
      }
    } else {
      BlankNothing(mtd[..], n, jffs2, p);
    }
    assert mtd[..n] == file[t..t + n];
    VerifyStep(l, p, jffs2, c, file, o, t, n, mtd[..]);
  }

  /** The emptiness check of the last page. */
  method FirstNonBlank(mtd: array<byte>, n: nat) returns (j: nat)
    requires n <= mtd.Length
    ensures n <= j <= mtd.Length && Blank(mtd[..], n, j)
    ensures j < mtd.Length ==> mtd[j] != ERASED
  {
    j := n;
    while j < mtd.Length
      invariant n <= j <= mtd.Length && Blank(mtd[..], n, j)
    {
      if mtd[j] != ERASED { return; }
      j := j + 1;
    }
  }

  lemma MinFacts(a: nat, b: nat)
    ensures Min(a, b) <= a && Min(a, b) <= b && (Min(a, b) == a || Min(a, b) == b)
  {}

  lemma BlankNothing(s: seq<byte>, a: nat, jffs2: bool, p: nat)
    requires a == p || jffs2
    ensures jffs2 || Blank(s, a, p)
  {}

  /** The verify loop at offset `o` with `t` file bytes compared and found equal. */
  ghost predicate VerifyState(l: Layout, p: nat, jffs2: bool, c: seq<byte>, file: seq<byte>, o: nat, t: nat) {
    && l.Valid() && p > 0 && l.erasesize % p == 0
    && |c| == l.Size() && o <= l.Size() && o % p == 0 && t <= |file|
    && RoundUp(t, p) == l.Logical(o)
    && (t < |file| ==> t == l.Logical(o))
    && Agree(l.GoodBytes(c), file, t)
    && (jffs2 || Blank(l.GoodBytes(c), t, RoundUp(t, p)))
  }

  predicate Agree(g: seq<byte>, file: seq<byte>, t: nat) {
    t <= |g| && t <= |file| && g[..t] == file[..t]
  }

  lemma VerifyStateFacts(l: Layout, p: nat, jffs2: bool, c: seq<byte>, file: seq<byte>, o: nat, t: nat)
    requires VerifyState(l, p, jffs2, c, file, o, t)
    ensures p > 0 && l.Valid() && o <= l.Size() && o % p == 0 && t <= |file| && |c| == l.Size()
  {}

  lemma VerifyStart(l: Layout, p: nat, jffs2: bool, c: seq<byte>, file: seq<byte>)
    requires l.Valid() && p > 0 && l.erasesize % p == 0 && |c| == l.Size()
    ensures VerifyState(l, p, jffs2, c, file, 0, 0)
  {}

  /** The page read at `o` is bytes `t` to `t + p` of the good bytes. */
  lemma PageInGood(l: Layout, p: nat, jffs2: bool, c: seq<byte>, file: seq<byte>, o: nat, t: nat)
    requires VerifyState(l, p, jffs2, c, file, o, t) && t < |file|
    requires o < l.Size() && l.GoodAt(o) && InOneBlock(l, o, p)
    ensures t % p == 0 && t + p <= |l.GoodBytes(c)| && l.GoodBytes(c)[t..t + p] == c[o..o + p]
  {
    StrideContent(l, c, o, p);
    LogicalAligned(l, o, p);
  }

  lemma DataMismatch(g: seq<byte>, file: seq<byte>, fileSize: nat, p: nat, jffs2: bool, t: nat, n: nat, i: nat,
                     src: seq<byte>, mtd: seq<byte>)
    requires p > 0 && n <= p && i < n && t + n <= |file| && t + p <= |g|
    requires src == file[t..t + n] && mtd == g[t..t + p] && src[i] != mtd[i]
    ensures !Matches(g, file, fileSize, p, jffs2)
  {
    var m := Min(|file|, |g|);
    assert g[..m][t + i] == mtd[i] && file[..m][t + i] == src[i];
  }

  lemma SlackMismatch(g: seq<byte>, file: seq<byte>, fileSize: nat, p: nat, t: nat, n: nat, j: nat, mtd: seq<byte>)
    requires p > 0 && 0 < n <= j < p && t + n == |file| && t % p == 0 && t + p <= |g|
    requires mtd == g[t..t + p] && mtd[j] != ERASED
    ensures !Matches(g, file, fileSize, p, false)
  {
    assert g[t + j] == mtd[j];
    AddAlignedSelf(t, p);
    RoundUpUnique(t + n, p, t + p);
    hide RoundUp;
  }

  lemma VerifyStep(l: Layout, p: nat, jffs2: bool, c: seq<byte>, file: seq<byte>, o: nat, t: nat, n: nat, mtd: seq<byte>)
    requires VerifyState(l, p, jffs2, c, file, o, t) && o < l.Size() && l.GoodAt(o) && InOneBlock(l, o, p)
    requires 0 < n && n == Min(p, |file| - t)
    requires mtd == c[o..o + p] && mtd[..n] == file[t..t + n]
    requires jffs2 || Blank(mtd, n, p)
    ensures VerifyState(l, p, jffs2, c, file, o + p, t + n)
  {
    hide Agree, Blank, RoundUp;
    var g := l.GoodBytes(c);
    PageInGood(l, p, jffs2, c, file, o, t);
    LogicalAligned(l, o, p);
    LogicalStride(l, o, p);
    AddAlignedSelf(o, p);
    AddAlignedSelf(t, p);
    RoundUpUnique(t + n, p, t + p);
    AgreeMore(g, file, t, n, p, mtd);
    if !jffs2 { BlankShift(g, t, n, p, mtd); }
  }

  lemma AgreeMore(g: seq<byte>, file: seq<byte>, t: nat, n: nat, p: nat, mtd: seq<byte>)
    requires Agree(g, file, t) && n <= p && t + n <= |file| && t + p <= |g|
    requires mtd == g[t..t + p] && mtd[..n] == file[t..t + n]
    ensures Agree(g, file, t + n)
  {
    assert g[..t + n] == g[..t] + mtd[..n];
    assert file[..t + n] == file[..t] + file[t..t + n];
  }

  lemma BlankShift(g: seq<byte>, t: nat, n: nat, p: nat, mtd: seq<byte>)
    requires t + p <= |g| && mtd == g[t..t + p] && Blank(mtd, n, p)
    ensures Blank(g, t + n, t + p)
  {
    forall k | t + n <= k < t + p && k < |g|
      ensures g[k] == ERASED
    {
      assert g[k] == mtd[k - t];
    }
  }

  lemma VerifySkip(l: Layout, p: nat, jffs2: bool, c: seq<byte>, file: seq<byte>, o: nat, t: nat)
    requires VerifyState(l, p, jffs2, c, file, o, t) && o < l.Size() && !l.GoodAt(o) && InOneBlock(l, o, p)
    ensures VerifyState(l, p, jffs2, c, file, o + p, t)
  {
    hide Agree, Blank, RoundUp;
    LogicalStride(l, o, p);
    AddAlignedSelf(o, p);
  }

  lemma VerifyDone(l: Layout, p: nat, jffs2: bool, c: seq<byte>, file: seq<byte>, fileSize: nat, o: nat, t: nat)
    requires VerifyState(l, p, jffs2, c, file, o, t)
    requires o >= l.Size() || t == |file|
    ensures fileSize == t <==> Matches(l.GoodBytes(c), file, fileSize, p, jffs2)
  {
    hide Blank;
    LogicalMonotone(l, o, l.Size());
    GoodBytesLength(l, c);
  }

  // ---------- checksumming by erase block ----------

  /** The loops of MtdPartVerifyFile and MtdPartCopyFile: checksum and copy, block by block. */
  method SumBlocks(file: seq<byte>, block: nat) returns (crc: bv32, dst: seq<byte>)
    requires block > 0
    ensures crc == Crc(0, file) && dst == file
  {
    hide *;
    var buf := new byte[block];
    crc, dst := 0, [];
    SumStart(file);
    while true
      invariant Summed(crc, file, |dst|) && |dst| <= |file| && dst == file[..|dst|]
      decreases |file| - |dst|
    {
      var n := Read(file, |dst|, buf);
      MinFacts(block, |file| - |dst|);
      if n == 0 { break; }
      crc := Crc32(crc, buf, 0, n);
      SumMore(file, |dst|, n);
      dst := dst + buf[..n];
    }
    SumAll(crc, file);
  }

  lemma SumMore(file: seq<byte>, t: nat, n: nat)
    requires t + n <= |file|
    ensures forall crc :: Summed(crc, file, t) ==> Summed(Crc(crc, file[t..t + n]), file, t + n)
  {
    CrcMore(file, t, n);
    hide Crc;
  }

  lemma SumAll(crc: bv32, file: seq<byte>)
    requires Summed(crc, file, |file|)
    ensures crc == Crc(0, file)
  {
    assert file[..|file|] == file;
    hide Crc;
  }

  /** The loop of MtdPartCheckCRC32. */
  method ChecksumReadback(dev: Mtd, fileSize: nat) returns (crc: bv32)
    requires dev.Valid() && fileSize <= dev.layout.Logical(dev.layout.Size()) == |dev.layout.GoodBytes(dev.flash[..])|
    ensures crc == Crc(0, dev.layout.GoodBytes(dev.flash[..])[..fileSize])
  {
    hide *;
    DeviceShape(dev);
    var l := dev.layout;
    ghost var g := l.GoodBytes(dev.flash[..]);
    ghost var c := dev.flash[..];
    var pucBufferMtd := new byte[l.erasesize];
    var iBytesReadTotal: nat, iOffsMtd: nat := 0, 0;
    crc := 0;
    SumStart(g);
    FirstOffset(l);
    while true
      invariant dev.flash[..] == c
      invariant Summed(crc, g, iBytesReadTotal) && iBytesReadTotal <= fileSize
      invariant iOffsMtd < l.Size() && iOffsMtd % l.erasesize == 0
      invariant iBytesReadTotal == l.Logical(iOffsMtd)
      decreases l.Size() - iOffsMtd
    {
      EraseBlockStride(l, iOffsMtd);
      var bad := dev.IsBadBlock(iOffsMtd);
      if !bad {
        dev.PRead(pucBufferMtd, iOffsMtd);
        StrideContent(l, c, iOffsMtd, l.erasesize);
        var iBytesReadMtd := l.erasesize;
        if iBytesReadTotal + iBytesReadMtd > fileSize {
          iBytesReadMtd := fileSize - iBytesReadTotal;
        }
        crc := SumStretch(crc, pucBufferMtd, iBytesReadMtd, g, iBytesReadTotal);
        iBytesReadTotal := iBytesReadTotal + iBytesReadMtd;
      }
      AddAlignedSelf(iOffsMtd, l.erasesize);
      iOffsMtd := iOffsMtd + l.erasesize;
      if !(fileSize > iBytesReadTotal) { break; }
      Inside(l, iOffsMtd);
    }
    assert iBytesReadTotal == fileSize;
    SumPrefix(crc, g, fileSize);
  }

  /** Adds the first `n` buffer bytes, which are bytes `t` to `t + n` of `g`. */
  method SumStretch(crc: bv32, buf: array<byte>, n: nat, ghost g: seq<byte>, ghost t: nat) returns (crc': bv32)
    requires n <= buf.Length && Summed(crc, g, t) && t + buf.Length <= |g| && buf[..] == g[t..t + buf.Length]
    ensures Summed(crc', g, t + n)
  {
    hide *;
    crc' := Crc32(crc, buf, 0, n);
    assert buf[0..0 + n] == buf[..][..n] == g[t..t + n];
    SumMore(g, t, n);
  }

  lemma FirstOffset(l: Layout)
    requires l.Valid()
    ensures l.Size() > 0 && l.Logical(0) == 0
  {
    MulMono(1, |l.bad|, l.erasesize);
  }

  lemma SizeNoticed(length: nat, fileSize: nat, size: nat)
    requires fileSize <= size
    ensures Min(length, size) <= length
    ensures Min(length, size) == fileSize <==> length == fileSize || (fileSize == size && length > size)
  {}

  lemma SumPrefix(crc: bv32, g: seq<byte>, n: nat)
    requires Summed(crc, g, n)
    ensures n <= |g| && crc == Crc(0, g[..n])
  {
    hide Crc;
  }

  lemma OneGoodBlock(l: Layout)
    requires l == Layout(4, [false])
    ensures l.Valid() && l.Size() == 4 && l.Logical(0) == 0 && l.Logical(4) == 4
    ensures forall x :: 0 <= x < 4 ==> l.GoodAt(x) && l.Logical(x) == x
  {
    assert l.Logical(1) == 1;
    assert l.Logical(2) == 2;
    assert l.Logical(3) == 3;
  }

  lemma OneBlockWritten(l: Layout, c: seq<byte>, file: seq<byte>)
    requires l == Layout(4, [false]) && |c| == 4 && file == [1, 2, 3, 4]
    ensures l.Valid() && |c| == l.Size() && Programmed(l, Erased(l, c, 4), Image(file, 4, false)) == file
  {
    OneGoodBlock(l);
    ImageAligned(file, 4, false);
    hide Image, Layout.Logical, Layout.GoodAt;
    var r := Programmed(l, Erased(l, c, 4), file);
    forall x | 0 <= x < 4
      ensures r[x] == file[x]
    {
      BurnErased(file[x]);
    }
  }

  /** The exception in MtdPartWrite: four bytes fit the partition, five are offered, four are
      written, and no error is reported. */
  method GrownFileUnnoticed() returns (ok: bool, flash: seq<byte>)
    ensures ok && flash == [1, 2, 3, 4]
  {
    var l := Layout(4, [false]);
    OneGoodBlock(l);
    var dev := new Mtd(false, 4, l, [0, 0, 0, 0]);
    ghost var c := dev.flash[..];
    var part := new MtdPartition(dev);
    var fits := part.Init(4, false, false, false);
    part.Erase();
    var file: seq<byte> := [1, 2, 3, 4, 5];
    ok := part.Write(file);
    flash := dev.flash[..];
    assert file[..4] == [1, 2, 3, 4];
    OneBlockWritten(l, c, file[..4]);
  }

  // ---------- putting it together ----------

  lemma MinOfFit(file: seq<byte>, n: nat)
    requires |file| <= n
    ensures Min(|file|, n) == |file| && file[..|file|] == file
  {}

  /** What is erased is whole pages and more, and never more than the good size. */
  lemma EraseCovers(l: Layout, p: nat, fileSize: nat, eraseSize: nat)
    requires l.Valid() && p > 0 && l.erasesize % p == 0
    requires fileSize <= eraseSize <= l.Logical(l.Size())
    ensures RoundUp(fileSize, p) <= RoundUp(eraseSize, l.erasesize) <= l.Logical(l.Size())
  {
    hide RoundUp;
    var e := l.erasesize;
    ModOfMultiple(|l.bad|, e);
    OwnMultiple(e);
    LogicalAligned(l, l.Size(), e);
    RoundUpLeast(eraseSize, e, l.Logical(l.Size()));
    RoundUpAligned(eraseSize, e);
    AlignedToDivisor(RoundUp(eraseSize, e), e, p);
    RoundUpLeast(fileSize, p, RoundUp(eraseSize, e));
  }

  /** Erasing whole blocks for `n` bytes reaches a good byte if its block starts below `n`. */
  lemma EraseReaches(l: Layout, n: nat, x: nat)
    requires l.Valid() && x < l.Size() && l.GoodAt(x)
    ensures l.Logical(x) < RoundUp(n, l.erasesize) <==> l.Logical(l.BlockBase(x)) < n
    ensures n == l.Logical(l.Size()) ==> l.Logical(l.BlockBase(x)) < n
  {
    hide *;
    var e := l.erasesize;
    LayoutIs(l);
    BlockOf(l, x);
    var b := l.BlockBase(x);
    ModOfMultiple(1, e);
    LogicalAligned(l, b, e);
    PlaceInStride(l, b, e, x);
    RoundUpAligned(n, e);
    if l.Logical(b) < RoundUp(n, e) { AlignedRoom(l.Logical(b), e, RoundUp(n, e)); }
    if n == l.Logical(l.Size()) { LogicalMonotone(l, b, l.Size()); }
  }

  /** The block of a byte: its start, and that it is as good as the byte. */
  lemma BlockOf(l: Layout, x: nat)
    requires l.Valid() && x < l.Size()
    ensures var b := l.BlockBase(x);
      b + l.erasesize <= l.Size() && l.GoodAt(b) == l.GoodAt(x) && InOneBlock(l, b, l.erasesize)
  {
    var e := l.erasesize;
    var q := x / e;
    l.BlockInRange(x);
    MulMono(q + 1, |l.bad|, e);
    assert (q + 1) * e == q * e + e;
    DivUnique(q * e, e, q);
    ModOfMultiple(q, e);
    ModOfMultiple(1, e);
    StrideInOneBlock(l, q * e, e);
    hide Layout.Logical, Layout.GoodBytes;
  }

  lemma ImageBlankEnd(file: seq<byte>, p: nat, g: seq<byte>)
    requires p > 0 && Image(file, p, false) <= g
    ensures Blank(g, |file|, RoundUp(|file|, p))
  {
    var image := Image(file, p, false);
    forall k | |file| <= k < |image|
      ensures g[k] == ERASED
    {
      assert g[k] == image[k];
    }
  }
}
