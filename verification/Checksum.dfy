/** CRC-32 as libdigi computes it (crc32.c): the algorithm of section 8 of RFC 1952.

    The reference is a bit-serial shift register: one message bit at a time, least
    significant bit of each byte first. `Crc32` is the table-driven loop of the source,
    proved against that reference. */
module Checksum {

  type byte = bv8

  // ---------- the reference: a shift register fed bit by bit ----------

  function Xor(x: bv32, y: bv32): bv32 {
    x ^ y
  }

  /** One shift of the register; the constant is the generator polynomial, reflected. */
  function BitStep(c: bv32): bv32 {
    if c & 1 == 1 then (c >> 1) ^ 0xedb8_8320 else c >> 1
  }

  function BitValue(b: bool): bv32 {
    if b then 1 else 0
  }

  /** The register after the message bits `bits`, first bit first. */
  function Feed(c: bv32, bits: seq<bool>): bv32
    decreases |bits|
  {
    if bits == [] then c else Feed(BitStep(Xor(c, BitValue(bits[0]))), bits[1..])
  }

  /** The bits of a byte in transmission order. */
  function ByteBits(b: byte): (r: seq<bool>)
    ensures |r| == 8
  {
    [b & 1 == 1, b & 2 == 2, b & 4 == 4, b & 8 == 8,
     b & 16 == 16, b & 32 == 32, b & 64 == 64, b & 128 == 128]
  }

  function Bits(data: seq<byte>): (r: seq<bool>)
    ensures |r| == 8 * |data|
  {
    if data == [] then [] else ByteBits(data[0]) + Bits(data[1..])
  }

  /** CRC-32 of `data`, continuing from the finished checksum `crc` (0 at the start). */
  function Crc(crc: bv32, data: seq<byte>): bv32 {
    Xor(Feed(Xor(crc, 0xffff_ffff), Bits(data)), 0xffff_ffff)
  }

  // ---------- the table of the source ----------

  function Pick(l: byte,
    e0: bv32, e1: bv32, e2: bv32, e3: bv32, e4: bv32, e5: bv32, e6: bv32, e7: bv32,
    e8: bv32, e9: bv32, e10: bv32, e11: bv32, e12: bv32, e13: bv32, e14: bv32, e15: bv32): bv32
  {
    if l & 8 == 0 then
      if l & 4 == 0 then
        if l & 2 == 0 then (if l & 1 == 0 then e0 else e1) else (if l & 1 == 0 then e2 else e3)
      else
        if l & 2 == 0 then (if l & 1 == 0 then e4 else e5) else (if l & 1 == 0 then e6 else e7)
    else
      if l & 4 == 0 then
        if l & 2 == 0 then (if l & 1 == 0 then e8 else e9) else (if l & 1 == 0 then e10 else e11)
      else
        if l & 2 == 0 then (if l & 1 == 0 then e12 else e13) else (if l & 1 == 0 then e14 else e15)
  }

  /** The 256 constants of `crc32_table`, sixteen to a row. */
  function Table(i: byte): bv32 {
    TableRow(i >> 4, i & 0xf)
  }

  function TableRow(r: byte, l: byte): bv32 {
    match r
    case 0x0 => Pick(l,
      0x00000000, 0x77073096, 0xee0e612c, 0x990951ba, 0x076dc419, 0x706af48f, 0xe963a535, 0x9e6495a3,
      0x0edb8832, 0x79dcb8a4, 0xe0d5e91e, 0x97d2d988, 0x09b64c2b, 0x7eb17cbd, 0xe7b82d07, 0x90bf1d91)
    case 0x1 => Pick(l,
      0x1db71064, 0x6ab020f2, 0xf3b97148, 0x84be41de, 0x1adad47d, 0x6ddde4eb, 0xf4d4b551, 0x83d385c7,
      0x136c9856, 0x646ba8c0, 0xfd62f97a, 0x8a65c9ec, 0x14015c4f, 0x63066cd9, 0xfa0f3d63, 0x8d080df5)
    case 0x2 => Pick(l,
      0x3b6e20c8, 0x4c69105e, 0xd56041e4, 0xa2677172, 0x3c03e4d1, 0x4b04d447, 0xd20d85fd, 0xa50ab56b,
      0x35b5a8fa, 0x42b2986c, 0xdbbbc9d6, 0xacbcf940, 0x32d86ce3, 0x45df5c75, 0xdcd60dcf, 0xabd13d59)
    case 0x3 => Pick(l,
      0x26d930ac, 0x51de003a, 0xc8d75180, 0xbfd06116, 0x21b4f4b5, 0x56b3c423, 0xcfba9599, 0xb8bda50f,
      0x2802b89e, 0x5f058808, 0xc60cd9b2, 0xb10be924, 0x2f6f7c87, 0x58684c11, 0xc1611dab, 0xb6662d3d)
    case 0x4 => Pick(l,
      0x76dc4190, 0x01db7106, 0x98d220bc, 0xefd5102a, 0x71b18589, 0x06b6b51f, 0x9fbfe4a5, 0xe8b8d433,
      0x7807c9a2, 0x0f00f934, 0x9609a88e, 0xe10e9818, 0x7f6a0dbb, 0x086d3d2d, 0x91646c97, 0xe6635c01)
    case 0x5 => Pick(l,
      0x6b6b51f4, 0x1c6c6162, 0x856530d8, 0xf262004e, 0x6c0695ed, 0x1b01a57b, 0x8208f4c1, 0xf50fc457,
      0x65b0d9c6, 0x12b7e950, 0x8bbeb8ea, 0xfcb9887c, 0x62dd1ddf, 0x15da2d49, 0x8cd37cf3, 0xfbd44c65)
    case 0x6 => Pick(l,
      0x4db26158, 0x3ab551ce, 0xa3bc0074, 0xd4bb30e2, 0x4adfa541, 0x3dd895d7, 0xa4d1c46d, 0xd3d6f4fb,
      0x4369e96a, 0x346ed9fc, 0xad678846, 0xda60b8d0, 0x44042d73, 0x33031de5, 0xaa0a4c5f, 0xdd0d7cc9)
    case 0x7 => Pick(l,
      0x5005713c, 0x270241aa, 0xbe0b1010, 0xc90c2086, 0x5768b525, 0x206f85b3, 0xb966d409, 0xce61e49f,
      0x5edef90e, 0x29d9c998, 0xb0d09822, 0xc7d7a8b4, 0x59b33d17, 0x2eb40d81, 0xb7bd5c3b, 0xc0ba6cad)
    case 0x8 => Pick(l,
      0xedb88320, 0x9abfb3b6, 0x03b6e20c, 0x74b1d29a, 0xead54739, 0x9dd277af, 0x04db2615, 0x73dc1683,
      0xe3630b12, 0x94643b84, 0x0d6d6a3e, 0x7a6a5aa8, 0xe40ecf0b, 0x9309ff9d, 0x0a00ae27, 0x7d079eb1)
    case 0x9 => Pick(l,
      0xf00f9344, 0x8708a3d2, 0x1e01f268, 0x6906c2fe, 0xf762575d, 0x806567cb, 0x196c3671, 0x6e6b06e7,
      0xfed41b76, 0x89d32be0, 0x10da7a5a, 0x67dd4acc, 0xf9b9df6f, 0x8ebeeff9, 0x17b7be43, 0x60b08ed5)
    case 0xa => Pick(l,
      0xd6d6a3e8, 0xa1d1937e, 0x38d8c2c4, 0x4fdff252, 0xd1bb67f1, 0xa6bc5767, 0x3fb506dd, 0x48b2364b,
      0xd80d2bda, 0xaf0a1b4c, 0x36034af6, 0x41047a60, 0xdf60efc3, 0xa867df55, 0x316e8eef, 0x4669be79)
    case 0xb => Pick(l,
      0xcb61b38c, 0xbc66831a, 0x256fd2a0, 0x5268e236, 0xcc0c7795, 0xbb0b4703, 0x220216b9, 0x5505262f,
      0xc5ba3bbe, 0xb2bd0b28, 0x2bb45a92, 0x5cb36a04, 0xc2d7ffa7, 0xb5d0cf31, 0x2cd99e8b, 0x5bdeae1d)
    case 0xc => Pick(l,
      0x9b64c2b0, 0xec63f226, 0x756aa39c, 0x026d930a, 0x9c0906a9, 0xeb0e363f, 0x72076785, 0x05005713,
      0x95bf4a82, 0xe2b87a14, 0x7bb12bae, 0x0cb61b38, 0x92d28e9b, 0xe5d5be0d, 0x7cdcefb7, 0x0bdbdf21)
    case 0xd => Pick(l,
      0x86d3d2d4, 0xf1d4e242, 0x68ddb3f8, 0x1fda836e, 0x81be16cd, 0xf6b9265b, 0x6fb077e1, 0x18b74777,
      0x88085ae6, 0xff0f6a70, 0x66063bca, 0x11010b5c, 0x8f659eff, 0xf862ae69, 0x616bffd3, 0x166ccf45)
    case 0xe => Pick(l,
      0xa00ae278, 0xd70dd2ee, 0x4e048354, 0x3903b3c2, 0xa7672661, 0xd06016f7, 0x4969474d, 0x3e6e77db,
      0xaed16a4a, 0xd9d65adc, 0x40df0b66, 0x37d83bf0, 0xa9bcae53, 0xdebb9ec5, 0x47b2cf7f, 0x30b5ffe9)
    case _ => Pick(l,
      0xbdbdf21c, 0xcabac28a, 0x53b39330, 0x24b4a3a6, 0xbad03605, 0xcdd70693, 0x54de5729, 0x23d967bf,
      0xb3667a2e, 0xc4614ab8, 0x5d681b02, 0x2a6f2b94, 0xb40bbe37, 0xc30c8ea1, 0x5a05df1b, 0x2d02ef8d)
  }

  /** One turn of the loop of the source. */
  function TableStep(c: bv32, b: byte): bv32 {
    Xor(Table((c & 0xff) as byte ^ b), c >> 8)
  }

  // ---------- feeding n bits is xor-ing them in and shifting n times ----------

  function Shift(n: nat, c: bv32): bv32
    decreases n
  {
    if n == 0 then c else Shift(n - 1, BitStep(c))
  }

  /** The bits as a number, first bit lowest. */
  function Pack(bits: seq<bool>): bv32 {
    if bits == [] then 0 else Push(bits[0], Pack(bits[1..]))
  }

  function Push(b: bool, p: bv32): bv32 {
    Xor(BitValue(b), p << 1)
  }

  lemma StepLinear(x: bv32, y: bv32)
    ensures BitStep(Xor(x, y)) == Xor(BitStep(x), BitStep(y))
  {
    assert (x ^ y) >> 1 == (x >> 1) ^ (y >> 1);
    assert (x ^ y) & 1 == (x & 1) ^ (y & 1);
    LowBit(x);
    LowBit(y);
  }

  lemma LowBit(x: bv32)
    ensures x & 1 == 0 || x & 1 == 1
  {}

  lemma StepInjective(x: bv32, y: bv32)
    requires BitStep(x) == BitStep(y)
    ensures x == y
  {
    LowBit(x);
    LowBit(y);
  }

  lemma {:induction false} ShiftLinear(n: nat, x: bv32, y: bv32)
    ensures Shift(n, Xor(x, y)) == Xor(Shift(n, x), Shift(n, y))
    decreases n
  {
    hide BitStep, Xor;
    if n > 0 {
      StepLinear(x, y);
      ShiftLinear(n - 1, BitStep(x), BitStep(y));
    }
  }

  lemma {:induction false} ShiftInjective(n: nat, x: bv32, y: bv32)
    requires Shift(n, x) == Shift(n, y)
    ensures x == y
    decreases n
  {
    hide BitStep;
    if n > 0 {
      ShiftInjective(n - 1, BitStep(x), BitStep(y));
      StepInjective(x, y);
    }
  }

  /** The number whose `n` lowest bits are set. */
  function Mask(n: nat): bv32 {
    if n == 0 then 0 else (Mask(n - 1) << 1) | 1
  }

  /** `p` fits in `n` bits. */
  predicate Below(p: bv32, n: nat) {
    p & Mask(n) == p
  }

  lemma {:induction false} PackBound(bits: seq<bool>)
    requires |bits| < 32
    ensures Below(Pack(bits), |bits|)
  {
    hide Push, Below;
    if bits == [] {
      BelowZero();
    } else {
      PackBound(bits[1..]);
      PushBound(bits[0], Pack(bits[1..]), |bits| - 1);
    }
  }

  lemma BelowZero()
    ensures Below(0, 0)
  {}

  lemma PushBound(b: bool, p: bv32, n: nat)
    requires Below(p, n)
    ensures Below(Push(b, p), n + 1)
  {
    PushMasked(BitValue(b), p, Mask(n));
  }

  lemma PushMasked(b: bv32, p: bv32, m: bv32)
    requires b <= 1 && p & m == p
    ensures (b ^ (p << 1)) & ((m << 1) | 1) == b ^ (p << 1)
  {}

  lemma MaskValue()
    ensures Mask(31) == 0x7fff_ffff
  {
    assert Mask(8) == 0xff;
    assert Mask(16) == 0xffff;
    assert Mask(24) == 0xff_ffff;
  }

  lemma {:induction false} MaskGrows(n: nat)
    ensures Mask(n) & Mask(n + 1) == Mask(n)
  {
    if n > 0 { MaskGrows(n - 1); }
  }

  /** Fewer than 32 bits leave the top bit clear. */
  lemma {:induction false} MaskTop(n: nat)
    requires n < 32
    ensures TopClear(Mask(n))
    decreases 32 - n
  {
    if n == 31 {
      MaskValue();
    } else {
      MaskTop(n + 1);
      MaskGrows(n);
      SubMask(Mask(n), Mask(n + 1), 0x7fff_ffff);
    }
  }

  lemma SubMask(x: bv32, y: bv32, z: bv32)
    requires x & y == x && y & z == y
    ensures x & z == x
  {
    assert x & z == (x & y) & z == x & (y & z);
  }

  lemma {:induction false} FeedIsShift(c: bv32, bits: seq<bool>)
    requires |bits| <= 32
    ensures Feed(c, bits) == Shift(|bits|, Xor(c, Pack(bits)))
    decreases |bits|
  {
    hide BitStep, Xor, Push, Below, BitValue;
    if bits == [] {
      XorZero(c);
    } else {
      PackBound(bits[1..]);
      FeedIsShift(BitStep(Xor(c, BitValue(bits[0]))), bits[1..]);
      StepPush(c, bits[0], Pack(bits[1..]), |bits| - 1);
    }
  }

  lemma XorZero(c: bv32)
    ensures Xor(c, 0) == c
  {}

  lemma StepPush(c: bv32, b: bool, p: bv32, n: nat)
    requires n < 32 && Below(p, n)
    ensures BitStep(Xor(c, Push(b, p))) == Xor(BitStep(Xor(c, BitValue(b))), p)
  {
    hide BitStep, Xor, Below, BitValue;
    XorAssoc(c, BitValue(b), p << 1);
    StepLinear(Xor(c, BitValue(b)), p << 1);
    StepOfDouble(p, n);
  }

  lemma XorAssoc(x: bv32, y: bv32, z: bv32)
    ensures Xor(x, Xor(y, z)) == Xor(Xor(x, y), z)
  {}

  lemma StepOfDouble(p: bv32, n: nat)
    requires n < 32 && Below(p, n)
    ensures BitStep(p << 1) == p
  {
    hide *;
    MaskTop(n);
    BelowTop(p, n);
    DoubleShift(p);
  }

  predicate TopClear(p: bv32) {
    p & 0x7fff_ffff == p
  }

  lemma BelowTop(p: bv32, n: nat)
    requires Below(p, n) && TopClear(Mask(n))
    ensures TopClear(p)
  {
    hide Mask;
    SubMask(p, Mask(n), 0x7fff_ffff);
  }

  lemma DoubleShift(p: bv32)
    requires TopClear(p)
    ensures BitStep(p << 1) == p
  {}

  lemma {:induction false} PackInjective(x: seq<bool>, y: seq<bool>)
    requires |x| == |y| <= 32 && Pack(x) == Pack(y)
    ensures x == y
  {
    hide Push, Below;
    if x != [] {
      PackBound(x[1..]);
      PackBound(y[1..]);
      PushInjective(x[0], y[0], Pack(x[1..]), Pack(y[1..]), |x| - 1);
      PackInjective(x[1..], y[1..]);
    }
  }

  lemma PushInjective(a: bool, b: bool, p: bv32, q: bv32, n: nat)
    requires n < 32 && Below(p, n) && Below(q, n)
    requires Push(a, p) == Push(b, q)
    ensures a == b && p == q
  {
    assert (p << 1) & 1 == 0 && (q << 1) & 1 == 0;
    StepOfDouble(p, n);
    StepOfDouble(q, n);
  }

  // ---------- the table step is eight shifts ----------

  lemma PackByte(b: byte)
    ensures Pack(ByteBits(b)) == b as bv32
  {
    hide Push;
    var s := ByteBits(b);
    PackEight(s);
    hide Pack;
    BytePushes(b);
  }

  lemma PackEight(s: seq<bool>)
    requires |s| == 8
    ensures Pack(s) == Push(s[0], Push(s[1], Push(s[2], Push(s[3], Push(s[4], Push(s[5], Push(s[6], Push(s[7], 0))))))))
  {
    hide Push;
    PackFour(s[4..]);
    assert s[4..][4..] == [];
    PackFour(s);
  }

  lemma PackFour(s: seq<bool>)
    requires |s| >= 4
    ensures Pack(s) == Push(s[0], Push(s[1], Push(s[2], Push(s[3], Pack(s[4..])))))
  {
    hide Push;
    assert s[1..][1..] == s[2..];
    assert s[2..][1..] == s[3..];
    assert s[3..][1..] == s[4..];
    assert Pack(s[3..]) == Push(s[3], Pack(s[4..]));
    assert Pack(s[2..]) == Push(s[2], Pack(s[3..]));
    assert Pack(s[1..]) == Push(s[1], Pack(s[2..]));
  }

  lemma BytePushes(b: byte)
    ensures Push(b & 1 == 1, Push(b & 2 == 2, Push(b & 4 == 4, Push(b & 8 == 8,
            Push(b & 16 == 16, Push(b & 32 == 32, Push(b & 64 == 64, Push(b & 128 == 128, 0)))))))) == b as bv32
  {}

  function Shift8(c: bv32): bv32 {
    BitStep(BitStep(BitStep(BitStep(BitStep(BitStep(BitStep(BitStep(c))))))))
  }

  lemma ShiftEight(c: bv32)
    ensures Shift(8, c) == Shift8(c)
  {
    hide BitStep;
    var d := BitStep(BitStep(BitStep(BitStep(c))));
    assert Shift(8, c) == Shift(4, d);
  }

  lemma LowRow(l: byte)
    requires l < 16
    ensures TableRow(0, l) == Shift8(l as bv32)
  {
    match l
    case 0 => case 1 => case 2 => case 3 => case 4 => case 5 => case 6 => case 7 =>
    case _ =>
  }

  lemma RowHeads(r: byte)
    requires r < 16
    ensures TableRow(r, 0) == Shift8((r as bv32) << 4)
  {}

  /** A row of the table is its first entry xor the first row. */
  predicate RowOk(r: byte, l: byte) {
    TableRow(r, l) == Xor(TableRow(r, 0), TableRow(0, l))
  }

  predicate Nibble(l: byte) {
    l < 16
  }

  lemma Row0(l: byte) requires Nibble(l) ensures RowOk(0, l) {}
  lemma Row1(l: byte) requires Nibble(l) ensures RowOk(1, l) {}
  lemma Row2(l: byte) requires Nibble(l) ensures RowOk(2, l) {}
  lemma Row3(l: byte) requires Nibble(l) ensures RowOk(3, l) {}
  lemma Row4(l: byte) requires Nibble(l) ensures RowOk(4, l) {}
  lemma Row5(l: byte) requires Nibble(l) ensures RowOk(5, l) {}
  lemma Row6(l: byte) requires Nibble(l) ensures RowOk(6, l) {}
  lemma Row7(l: byte) requires Nibble(l) ensures RowOk(7, l) {}
  lemma Row8(l: byte) requires Nibble(l) ensures RowOk(8, l) {}
  lemma Row9(l: byte) requires Nibble(l) ensures RowOk(9, l) {}
  lemma Row10(l: byte) requires Nibble(l) ensures RowOk(10, l) {}
  lemma Row11(l: byte) requires Nibble(l) ensures RowOk(11, l) {}
  lemma Row12(l: byte) requires Nibble(l) ensures RowOk(12, l) {}
  lemma Row13(l: byte) requires Nibble(l) ensures RowOk(13, l) {}
  lemma Row14(l: byte) requires Nibble(l) ensures RowOk(14, l) {}
  lemma Row15(l: byte) requires Nibble(l) ensures RowOk(15, l) {}

  lemma RowsOk(r: byte, l: byte)
    requires Nibble(r) && Nibble(l)
    ensures RowOk(r, l)
  {
    hide RowOk, Pick, TableRow;
    match r
    case 0 => Row0(l);
    case 1 => Row1(l);
    case 2 => Row2(l);
    case 3 => Row3(l);
    case 4 => Row4(l);
    case 5 => Row5(l);
    case 6 => Row6(l);
    case 7 => Row7(l);
    case 8 => Row8(l);
    case 9 => Row9(l);
    case 10 => Row10(l);
    case 11 => Row11(l);
    case 12 => Row12(l);
    case 13 => Row13(l);
    case 14 => Row14(l);
    case _ =>
      assert r == 15;
      Row15(l);
  }

  lemma TableIsEightShifts(i: byte)
    ensures Table(i) == Shift(8, i as bv32)
  {
    hide Shift, Shift8, TableRow, Xor;
    var h, l := i >> 4, i & 0xf;
    Nibbles(i);
    RowsOk(h, l);
    LowRow(l);
    RowHeads(h);
    ShiftEight(i as bv32);
    ShiftEight((h as bv32) << 4);
    ShiftEight(l as bv32);
    ShiftLinear(8, (h as bv32) << 4, l as bv32);
  }

  lemma Nibbles(i: byte)
    ensures i >> 4 < 16 && i & 0xf < 16
    ensures Xor(((i >> 4) as bv32) << 4, (i & 0xf) as bv32) == i as bv32
  {}

  lemma ShiftHigh(c: bv32)
    ensures Shift(8, (c >> 8) << 8) == c >> 8
  {
    ShiftEight((c >> 8) << 8);
    hide Shift;
  }

  lemma SplitByte(c: bv32, b: byte)
    ensures Xor(c, b as bv32) == Xor(((c & 0xff) as byte ^ b) as bv32, (c >> 8) << 8)
  {}

  /** One look-up in the table consumes eight message bits. */
  lemma TableStepFeeds(c: bv32, b: byte)
    ensures TableStep(c, b) == Feed(c, ByteBits(b))
  {
    hide Table, Shift, Xor, Pack, Feed, ByteBits;
    var lo := (c & 0xff) as byte ^ b;
    PackByte(b);
    FeedIsShift(c, ByteBits(b));
    SplitByte(c, b);
    ShiftLinear(8, lo as bv32, (c >> 8) << 8);
    ShiftHigh(c);
    TableIsEightShifts(lo);
  }

  lemma {:induction false} FeedAppend(c: bv32, x: seq<bool>, y: seq<bool>)
    ensures Feed(c, x + y) == Feed(Feed(c, x), y)
    decreases |x|
  {
    hide BitStep, Xor, BitValue;
    if x == [] {
      assert x + y == y;
    } else {
      assert (x + y)[1..] == x[1..] + y;
      FeedAppend(BitStep(Xor(c, BitValue(x[0]))), x[1..], y);
    }
  }

  lemma {:induction false} BitsAppend(x: seq<byte>, y: seq<byte>)
    ensures Bits(x + y) == Bits(x) + Bits(y)
  {
    hide ByteBits;
    if x == [] {
      assert x + y == y;
    } else {
      assert (x + y)[1..] == x[1..] + y;
      BitsAppend(x[1..], y);
    }
  }

  /** crc32: the loop of the source, over `iLen` bytes from `offs` on. */
  method Crc32(uiCRC: bv32, buf: array<byte>, offs: nat, iLen: nat) returns (r: bv32)
    requires offs + iLen <= buf.Length
    ensures r == Crc(uiCRC, buf[offs..offs + iLen])
  {
    hide TableStep, Xor, Feed, Bits;
    var c := Xor(uiCRC, 0xffff_ffff);
    var i := 0;
    FeedNothing(c);
    while i < iLen
      invariant i <= iLen
      invariant c == Feed(Xor(uiCRC, 0xffff_ffff), Bits(buf[offs..offs + i]))
    {
      FeedByte(Xor(uiCRC, 0xffff_ffff), buf[offs..offs + i], buf[offs + i]);
      assert buf[offs..offs + i + 1] == buf[offs..offs + i] + [buf[offs + i]];
      c := TableStep(c, buf[offs + i]);
      i := i + 1;
    }
    r := Xor(c, 0xffff_ffff);
  }

  lemma FeedNothing(c: bv32)
    ensures Feed(c, Bits([])) == c
  {}

  lemma FeedByte(c: bv32, data: seq<byte>, b: byte)
    ensures Feed(c, Bits(data + [b])) == TableStep(Feed(c, Bits(data)), b)
  {
    hide TableStep, ByteBits, Feed;
    BitsAppend(data, [b]);
    assert Bits([b]) == ByteBits(b) + Bits([]);
    assert Bits([b]) == ByteBits(b);
    FeedAppend(c, Bits(data), ByteBits(b));
    TableStepFeeds(Feed(c, Bits(data)), b);
  }

  /** Checksums compose: a stream may be cut into blocks anywhere. */
  lemma CrcAppend(crc: bv32, x: seq<byte>, y: seq<byte>)
    ensures Crc(crc, x + y) == Crc(Crc(crc, x), y)
  {
    hide Feed, Xor, Bits;
    BitsAppend(x, y);
    FeedAppend(Xor(crc, 0xffff_ffff), Bits(x), Bits(y));
    XorCancels(Feed(Xor(crc, 0xffff_ffff), Bits(x)), 0xffff_ffff);
  }

  lemma CrcNothing(crc: bv32)
    ensures Crc(crc, []) == crc
  {
    hide Feed, Xor;
    FeedNothing(Xor(crc, 0xffff_ffff));
    XorCancels(crc, 0xffff_ffff);
  }

  lemma XorCancels(x: bv32, m: bv32)
    ensures Xor(Xor(x, m), m) == x
  {}

  /** The check value of CRC-32: the checksum of "123456789". */
  lemma CheckValue()
    ensures Crc(0, [0x31, 0x32, 0x33, 0x34, 0x35, 0x36, 0x37, 0x38, 0x39]) == 0xcbf4_3926
  {
    hide *;
    CheckSteps1();
    CheckSteps2();
    CheckSteps3();
    var s: seq<byte> := [0x31, 0x32, 0x33, 0x34, 0x35, 0x36, 0x37, 0x38, 0x39];
    FeedNothing(0xffff_ffff);
    assert s[..0] == [];
    CheckByte(s, 0, 0xffff_ffff, 0x7c23_1048);
    CheckByte(s, 1, 0x7c23_1048, 0xb0ac_bb32);
    CheckByte(s, 2, 0xb0ac_bb32, 0x77b7_9c2d);
    CheckByte(s, 3, 0x77b7_9c2d, 0x641c_1f5c);
    CheckByte(s, 4, 0x641c_1f5c, 0x340a_c5e3);
    CheckByte(s, 5, 0x340a_c5e3, 0xf68d_2c9e);
    CheckByte(s, 6, 0xf68d_2c9e, 0xaffc_9660);
    CheckByte(s, 7, 0xaffc_9660, 0x651f_2550);
    CheckByte(s, 8, 0x651f_2550, 0x340b_c6d9);
    assert s[..9] == s;
    FinishCheck();
  }

  lemma FinishCheck()
    ensures Xor(0x340b_c6d9, 0xffff_ffff) == 0xcbf4_3926 && Xor(0, 0xffff_ffff) == 0xffff_ffff
    ensures forall data :: Crc(0, data) == Xor(Feed(Xor(0, 0xffff_ffff), Bits(data)), 0xffff_ffff)
  {
    hide Feed, Bits;
  }

  lemma CheckSteps1()
    ensures TableStep(0xffff_ffff, 0x31) == 0x7c23_1048
    ensures TableStep(0x7c23_1048, 0x32) == 0xb0ac_bb32
    ensures TableStep(0xb0ac_bb32, 0x33) == 0x77b7_9c2d
  {}

  lemma CheckSteps2()
    ensures TableStep(0x77b7_9c2d, 0x34) == 0x641c_1f5c
    ensures TableStep(0x641c_1f5c, 0x35) == 0x340a_c5e3
    ensures TableStep(0x340a_c5e3, 0x36) == 0xf68d_2c9e
  {}

  lemma CheckSteps3()
    ensures TableStep(0xf68d_2c9e, 0x37) == 0xaffc_9660
    ensures TableStep(0xaffc_9660, 0x38) == 0x651f_2550
    ensures TableStep(0x651f_2550, 0x39) == 0x340b_c6d9
  {}

  lemma CheckByte(s: seq<byte>, n: nat, c: bv32, d: bv32)
    requires n < |s| && Feed(0xffff_ffff, Bits(s[..n])) == c && TableStep(c, s[n]) == d
    ensures Feed(0xffff_ffff, Bits(s[..n + 1])) == d
  {
    hide *;
    assert s[..n + 1] == s[..n] + [s[n]];
    FeedByte(0xffff_ffff, s[..n], s[n]);
  }

  // ---------- error detection ----------

  /** The register never forgets: equal ends on equal bits mean equal starts. */
  lemma {:induction false} FeedInjective(c: bv32, d: bv32, bits: seq<bool>)
    requires Feed(c, bits) == Feed(d, bits)
    ensures c == d
    decreases |bits|
  {
    hide BitStep, Xor, BitValue;
    if bits != [] {
      var b := BitValue(bits[0]);
      FeedInjective(BitStep(Xor(c, b)), BitStep(Xor(d, b)), bits[1..]);
      StepInjective(Xor(c, b), Xor(d, b));
      XorCancels(c, b);
      XorCancels(d, b);
    }
  }

  /** Every burst of at most 32 bits changes the register, whatever surrounds it. */
  lemma BurstDetected(c: bv32, p: seq<bool>, x: seq<bool>, y: seq<bool>, s: seq<bool>)
    requires |x| == |y| <= 32 && x != y
    ensures Feed(c, p + x + s) != Feed(c, p + y + s)
  {
    hide Feed, Shift, Pack, Xor;
    var r := Feed(c, p);
    FeedAppend(c, p + x, s);
    FeedAppend(c, p + y, s);
    FeedAppend(c, p, x);
    FeedAppend(c, p, y);
    if Feed(c, p + x + s) == Feed(c, p + y + s) {
      FeedInjective(Feed(r, x), Feed(r, y), s);
      FeedIsShift(r, x);
      FeedIsShift(r, y);
      ShiftInjective(|x|, Xor(r, Pack(x)), Xor(r, Pack(y)));
      XorCancelsLeft(r, Pack(x), Pack(y));
      PackInjective(x, y);
    }
  }

  lemma XorCancelsLeft(r: bv32, x: bv32, y: bv32)
    requires Xor(r, x) == Xor(r, y)
    ensures x == y
  {}

  lemma ByteBitsInjective(a: byte, b: byte)
    requires ByteBits(a) == ByteBits(b)
    ensures a == b
  {
    PackByte(a);
    PackByte(b);
    hide Pack, ByteBits;
  }

  lemma {:induction false} BitsInjective(x: seq<byte>, y: seq<byte>)
    requires |x| == |y| && Bits(x) == Bits(y)
    ensures x == y
  {
    hide ByteBits;
    if x != [] {
      assert Bits(x)[..8] == ByteBits(x[0]) && Bits(x)[8..] == Bits(x[1..]);
      assert Bits(y)[..8] == ByteBits(y[0]) && Bits(y)[8..] == Bits(y[1..]);
      ByteBitsInjective(x[0], y[0]);
      BitsInjective(x[1..], y[1..]);
    }
  }

  /** Two messages that differ only inside one window of at most four bytes never share
      a checksum, whatever the window's position and the checksum they continue. */
  lemma WindowDetected(crc: bv32, p: seq<byte>, x: seq<byte>, y: seq<byte>, s: seq<byte>)
    requires |x| == |y| <= 4 && x != y
    ensures Crc(crc, p + x + s) != Crc(crc, p + y + s)
  {
    hide Feed, Bits, Xor;
    var c := Xor(crc, 0xffff_ffff);
    BitsAppend(p + x, s);
    BitsAppend(p, x);
    BitsAppend(p + y, s);
    BitsAppend(p, y);
    if Bits(x) == Bits(y) { BitsInjective(x, y); }
    BurstDetected(c, Bits(p), Bits(x), Bits(y), Bits(s));
    XorCancels(Feed(c, Bits(p + x + s)), 0xffff_ffff);
    XorCancels(Feed(c, Bits(p + y + s)), 0xffff_ffff);
  }

  /** Started from and xor-ed with all ones, crc32 is the bare register started at 0:
      the header checksum JFFS2 expects. */
  lemma BareRegister(data: seq<byte>)
    ensures Xor(Crc(0xffff_ffff, data), 0xffff_ffff) == Feed(0, Bits(data))
  {
    hide Feed, Bits;
    assert Xor(0xffff_ffff, 0xffff_ffff) == 0;
    XorCancels(Feed(0, Bits(data)), 0xffff_ffff);
  }
}
