/** btconfig.c: hex strings whose bytes are turned round in place, and their decoding. */
module HexString {
  import opened Basics

  predicate IsBlank(c: char) {
    c == ' ' || c == '\t'
  }

  /** IS_HEX */
  predicate IsHex(c: char) {
    '0' <= c <= '9' || 'a' <= c <= 'f' || 'A' <= c <= 'F'
  }

  /** CONV_HEX_DIGIT_TO_VALUE, which the source applies to hex digits only. */
  function Value(c: char): (v: nat)
    requires IsHex(c)
    ensures v < 16
  {
    if '0' <= c <= '9' then c as int - '0' as int
    else if 'A' <= c <= 'Z' then c as int - 'A' as int + 10
    else c as int - 'a' as int + 10
  }

  /** How many blanks lead. */
  function Blanks(s: seq<char>): (n: nat)
    ensures n <= |s| && (n < |s| ==> !IsBlank(s[n])) && forall k :: 0 <= k < n ==> IsBlank(s[k])
  {
    if s == [] || !IsBlank(s[0]) then 0 else 1 + Blanks(s[1..])
  }

  /** Where the digits start: behind blanks and one `0x`. */
  function Start(s: seq<char>): (n: nat)
    ensures n <= |s|
  {
    var i := Blanks(s);
    if i + 1 < |s| && s[i] == '0' && s[i + 1] == 'x' then i + 2 else i
  }

  /** How many hex digits lead. */
  function HexRun(s: seq<char>): (n: nat)
    ensures n <= |s| && (n < |s| ==> !IsHex(s[n])) && forall k :: 0 <= k < n ==> IsHex(s[k])
  {
    if s == [] || !IsHex(s[0]) then 0 else 1 + HexRun(s[1..])
  }

  predicate AllHex(d: seq<char>) {
    forall k :: 0 <= k < |d| ==> IsHex(d[k])
  }

  function Digits(s: seq<char>): (d: seq<char>)
    ensures AllHex(d)
  {
    s[Start(s)..][..HexRun(s[Start(s)..])]
  }

  /** Nothing but hex digits behind blanks and `0x`. */
  predicate IsHexString(s: seq<char>) {
    AllHex(s[Start(s)..])
  }

  // ---------- ReverseHexString ----------

  /** The outermost pairs change places, then the next ones. */
  function PairsReversed(d: seq<char>): (r: seq<char>)
    ensures |r| == |d|
  {
    if |d| < 4 then d else d[|d| - 2..] + PairsReversed(d[2..|d| - 2]) + d[..2]
  }

  function Reversed(s: seq<char>): (r: seq<char>)
    ensures |r| == |s|
  {
    s[..Start(s)] + PairsReversed(s[Start(s)..])
  }

  /** `p` holds the string of length `n` and its terminator. */
  ghost predicate Holds(p: array<char>, n: nat)
    reads p
  {
    n < p.Length && p[n] == '\0' && forall k :: 0 <= k < n ==> p[k] != '\0'
  }

  method StrLen(p: array<char>, ghost n: nat) returns (len: nat)
    requires Holds(p, n)
    ensures len == n
  {
    len := 0;
    while p[len] != '\0'
      invariant len <= n
      decreases n - len
    {
      len := len + 1;
    }
  }

  lemma {:induction false} BlanksAre(s: seq<char>, i: nat)
    requires i <= |s| && (i < |s| ==> !IsBlank(s[i])) && forall k :: 0 <= k < i ==> IsBlank(s[k])
    ensures Blanks(s) == i
  {
    if i > 0 { BlanksAre(s[1..], i - 1); }
  }

  lemma {:induction false} HexRunIs(s: seq<char>, i: nat)
    requires i <= |s| && (i < |s| ==> !IsHex(s[i])) && forall k :: 0 <= k < i ==> IsHex(s[k])
    ensures HexRun(s) == i
  {
    if i > 0 { HexRunIs(s[1..], i - 1); }
  }

  /** The scan over blanks and `0x` that both functions begin with. */
  method SkipPrefix(p: array<char>, ghost n: nat) returns (i: nat)
    requires Holds(p, n)
    ensures i == Start(p[..n])
  {
    i := 0;
    while p[i] == ' ' || p[i] == '\t'
      invariant i <= n && forall k :: 0 <= k < i ==> IsBlank(p[k])
      decreases n - i
    {
      i := i + 1;
    }
    BlanksAre(p[..n], i);
    assert i + 1 < n ==> p[..n][i] == p[i] && p[..n][i + 1] == p[i + 1];
    if p[i] == '0' && p[i + 1] == 'x' {
      i := i + 2;
    }
  }

  function PairsSwapped(w: seq<char>, i: nat, j: nat): (v: seq<char>)
    requires i + 2 < j < |w|
    ensures |v| == |w|
  {
    seq(|w|, k requires 0 <= k < |w| =>
      if k == i then w[j - 1] else if k == i + 1 then w[j]
      else if k == j - 1 then w[i] else if k == j then w[i + 1] else w[k])
  }

  method SwapPairs(p: array<char>, i: nat, j: nat)
    requires i + 2 < j < p.Length
    modifies p
    ensures p[..] == PairsSwapped(old(p[..]), i, j)
  {
    var temp := p[i];
    p[i] := p[j - 1];
    p[j - 1] := temp;
    temp := p[i + 1];
    p[i + 1] := p[j];
    p[j] := temp;
    assert forall k :: 0 <= k < p.Length ==> p[..][k] == PairsSwapped(old(p[..]), i, j)[k];
  }

  /** The string `s` of length `n` is turned round outside `i..j`, not yet within. */
  ghost predicate Turned(s: seq<char>, b: nat, n: nat, w: seq<char>, i: nat, j: int)
    requires b <= n <= |s|
  {
    && b <= i <= j + 1 <= n && |w| == |s| && w[..b] == s[..b] && w[n..] == s[n..]
    && PairsReversed(s[b..n]) == w[b..i] + PairsReversed(w[i..j + 1]) + w[j + 1..n]
  }

  lemma PairsSwappedParts(w: seq<char>, b: nat, n: nat, i: nat, j: nat)
    requires b <= i && i + 2 < j < n <= |w|
    ensures var v := PairsSwapped(w, i, j);
      v[..b] == w[..b] && v[b..i + 2] == w[b..i] + w[j - 1..j + 1] && v[i + 2..j - 1] == w[i + 2..j - 1]
      && v[j - 1..n] == w[i..i + 2] + w[j + 1..n] && v[n..] == w[n..]
  {}

  lemma SubSlice(w: seq<char>, i: nat, j: nat, c: nat, d: nat)
    requires i <= j <= |w| && c <= d <= j - i
    ensures w[i..j][c..d] == w[i + c..i + d]
  {
    var u := w[i..j];
    forall k | 0 <= k < d - c
      ensures u[c..d][k] == w[i + c..i + d][k]
    {
      assert u[c..d][k] == u[c + k];
    }
  }

  lemma TurnedStep(s: seq<char>, b: nat, n: nat, w: seq<char>, i: nat, j: nat)
    requires b <= n <= |s| && Turned(s, b, n, w, i, j) && i + 2 < j
    ensures Turned(s, b, n, PairsSwapped(w, i, j), i + 2, j - 2)
  {
    hide PairsReversed, PairsSwapped;
    PairsStep(w[i..j + 1]);
    SubSlice(w, i, j + 1, 0, 2); SubSlice(w, i, j + 1, 2, j - 1 - i); SubSlice(w, i, j + 1, j - 1 - i, j + 1 - i);
    PairsSwappedParts(w, b, n, i, j);
    Regroup(w[b..i], w[j - 1..j + 1], PairsReversed(w[i + 2..j - 1]), w[i..i + 2], w[j + 1..n]);
  }

  lemma Regroup(a: seq<char>, b: seq<char>, c: seq<char>, d: seq<char>, e: seq<char>)
    ensures a + (b + c + d) + e == (a + b) + c + (d + e)
  {}

  lemma TurnedStart(s: seq<char>, b: nat, n: nat)
    requires b <= n <= |s|
    ensures Turned(s, b, n, s, b, n - 1)
  {
    hide PairsReversed;
    assert s[b..b] == [] && s[n..n] == [];
  }

  lemma TurnedEnd(s: seq<char>, n: nat, w: seq<char>, i: nat, j: int)
    requires n <= |s| && Turned(s, Start(s[..n]), n, w, i, j) && j <= i + 2
    ensures w[..n] == Reversed(s[..n]) && w[n..] == s[n..]
  {
    hide PairsReversed, Start;
    var b := Start(s[..n]);
    PairsEnd(w[i..j + 1]);
    SubSlice(s, 0, n, b, n);
    SubSlice(s, 0, n, 0, b);
    FourParts(w, b, i, j + 1, n);
  }

  lemma FourParts(w: seq<char>, a: nat, b: nat, c: nat, d: nat)
    requires a <= b <= c <= d <= |w|
    ensures w[..d] == w[..a] + (w[a..b] + w[b..c] + w[c..d])
  {}

  /** ReverseHexString */
  method ReverseHexString(p: array<char>, ghost n: nat)
    requires Holds(p, n)
    modifies p
    ensures p[..n] == Reversed(old(p[..n])) && p[n..] == old(p[n..])
  {
    hide Turned, Reversed, Start, PairsReversed, PairsSwapped;
    ghost var s := p[..];
    assert s[..n] == p[..n] && s[n..] == p[n..];
    var len := StrLen(p, n);
    var i := SkipPrefix(p, n);
    ghost var b := i;
    var j := len as int - 1;
    TurnedStart(s, b, n);
    while i < j - 2
      invariant b <= i <= j + 1 <= n && Turned(s, b, n, p[..], i, j)
    {
      TurnedStep(s, b, n, p[..], i, j);
      SwapPairs(p, i, j);
      i, j := i + 2, j - 2;
    }
    TurnedEnd(s, n, p[..], i, j);
    assert p[..n] == p[..][..n] && p[n..] == p[..][n..];
  }

  lemma PairsStep(d: seq<char>)
    requires |d| >= 4
    ensures PairsReversed(d) == d[|d| - 2..] + PairsReversed(d[2..|d| - 2]) + d[..2]
  {}

  lemma PairsEnd(d: seq<char>)
    requires |d| < 4
    ensures PairsReversed(d) == d
  {}

  /** Turning pairs round twice changes nothing; an odd digit in the middle never moves. */
  lemma {:induction false} PairsTwice(d: seq<char>)
    ensures PairsReversed(PairsReversed(d)) == d
  {
    if |d| >= 4 {
      var mid := d[2..|d| - 2];
      var r := PairsReversed(d);
      assert r[|r| - 2..] == d[..2] && r[2..|r| - 2] == PairsReversed(mid) && r[..2] == d[|d| - 2..];
      PairsTwice(mid);
      assert d == d[..2] + mid + d[|d| - 2..];
    }
  }

  lemma {:induction false} PairsHex(d: seq<char>)
    requires AllHex(d)
    ensures AllHex(PairsReversed(d))
  {
    if |d| >= 4 { PairsHex(d[2..|d| - 2]); }
  }

  /** The prefix that is skipped is found again after the digits have moved. */
  lemma StartStays(s: seq<char>, t: seq<char>)
    requires |t| == |s| && t[..Start(s)] == s[..Start(s)] && AllHex(t[Start(s)..])
    ensures Start(t) == Start(s)
  {
    var b, i := Start(s), Blanks(s);
    assert forall k :: 0 <= k < b ==> t[k] == t[..b][k] && s[k] == s[..b][k];
    assert forall k :: b <= k < |t| ==> t[k] == t[b..][k - b] && IsHex(t[k]);
    BlanksAre(t, i);
  }

  lemma ReversedHex(s: seq<char>)
    requires IsHexString(s)
    ensures Start(Reversed(s)) == Start(s)
    ensures Reversed(s)[Start(s)..] == PairsReversed(s[Start(s)..]) && IsHexString(Reversed(s))
  {
    hide PairsReversed;
    var r, b := Reversed(s), Start(s);
    PairsHex(s[b..]);
    assert r[..b] == s[..b] && r[b..] == PairsReversed(s[b..]);
    StartStays(s, r);
  }

  /** ReverseHexString undoes itself, for any number of digits. */
  lemma ReversedTwice(s: seq<char>)
    requires IsHexString(s)
    ensures Reversed(Reversed(s)) == s
  {
    hide PairsReversed, IsHexString;
    var b := Start(s);
    ReversedHex(s);
    PairsTwice(s[b..]);
    assert Reversed(s)[..b] == s[..b];
  }

  // ---------- GetByteSeq ----------

  /** Digit `k`; zeros follow the last. */
  function NibbleAt(d: seq<char>, k: nat): (v: nat)
    requires AllHex(d)
    ensures v < 16
  {
    if k < |d| then Value(d[k]) else 0
  }

  function ByteAt(d: seq<char>, k: nat): Byte
    requires AllHex(d)
  {
    NibbleAt(d, 2 * k) * 16 + NibbleAt(d, 2 * k + 1)
  }

  function Decoded(s: seq<char>, size: nat): (bytes: seq<Byte>)
    ensures |bytes| == size
  {
    seq(size, k requires 0 <= k < size => ByteAt(Digits(s), k))
  }

  /** `pLastHex`: the last digit, or the character before the first. */
  method LastHex(src: array<char>, ghost n: nat, start: nat) returns (last: int)
    requires Holds(src, n) && start == Start(src[..n])
    ensures last == start + |Digits(src[..n])| - 1
  {
    ghost var t := src[..n][start..];
    last := start - 1;
    while IsHex(src[last + 1])
      invariant start - 1 <= last < n
      invariant forall k :: 0 <= k <= last - start ==> IsHex(t[k])
      decreases n - last
    {
      assert t[last + 1 - start] == src[last + 1];
      last := last + 1;
    }
    assert last + 1 < n ==> t[last + 1 - start] == src[last + 1];
    HexRunIs(t, last + 1 - start);
  }

  /** GetByteSeq. Shifting a nibble up and or-ing one in are written as arithmetic. */
  method GetByteSeq(dst: array<Byte>, src: array<char>, ghost n: nat, size: int)
    requires Holds(src, n) && size <= dst.Length
    modifies dst
    ensures size >= 0 ==> dst[..size] == Decoded(src[..n], size) && dst[size..] == old(dst[size..])
    ensures size < 0 ==> dst[..] == old(dst[..])
  {
    hide HexRun, Start, Value, Digits, NibbleAt, ByteAt, Decoded, IsHex;
    ghost var d := Digits(src[..n]);
    var start := SkipPrefix(src, n);
    var last := LastHex(src, n, start);
    var p, q, left, lowNibble := start, 0, size, false;
    while left > 0
      invariant 0 <= q <= dst.Length && (size >= 0 ==> q + left == size && left >= 0) && (size < 0 ==> q == 0 && left == size)
      invariant lowNibble ==> left > 0
      invariant p == start + Min(2 * q + (if lowNibble then 1 else 0), |d|)
      invariant forall b :: 0 <= b < q ==> dst[b] == ByteAt(d, b)
      invariant lowNibble ==> dst[q] == NibbleAt(d, 2 * q) * 16
      invariant forall b :: q < b < dst.Length ==> dst[b] == old(dst[b])
      invariant q < dst.Length && !lowNibble ==> dst[q] == old(dst[q])
      decreases 2 * left - if lowNibble then 1 else 0
    {
      ghost var k := 2 * q + if lowNibble then 1 else 0;
      NextNibble(src[..n], start, k);
      var nibble := 0;
      if p <= last {
        nibble := Value(src[p]);
        p := p + 1;
      }
      if lowNibble {
        TwoNibbles(d, q);
        dst[q] := dst[q] + nibble % 16;
        lowNibble := false;
        q := q + 1;
        left := left - 1;
      } else {
        dst[q] := nibble * 16 % 256;
        lowNibble := true;
      }
    }
    if size >= 0 {
      DecodedIs(src[..n], dst[..size]);
      assert forall b :: size <= b < dst.Length ==> dst[b] == old(dst[b]);
      assert dst[size..] == old(dst[size..]);
    }
  }

  lemma NextNibble(s: seq<char>, start: nat, k: nat)
    requires start == Start(s)
    ensures start + |Digits(s)| <= |s|
    ensures Min(k + 1, |Digits(s)|) == Min(k, |Digits(s)|) + if k < |Digits(s)| then 1 else 0
    ensures k < |Digits(s)| ==> Min(k, |Digits(s)|) == k && IsHex(s[start + k]) && NibbleAt(Digits(s), k) == Value(s[start + k])
    ensures k >= |Digits(s)| ==> Min(k, |Digits(s)|) == |Digits(s)| && NibbleAt(Digits(s), k) == 0
  {
    hide Start, Value, HexRun, IsHex;
    var t := s[start..];
    if k < |Digits(s)| { assert Digits(s)[k] == t[k] == s[start + k]; }
  }

  lemma TwoNibbles(d: seq<char>, q: nat)
    requires AllHex(d)
    ensures ByteAt(d, q) == NibbleAt(d, 2 * q) * 16 + NibbleAt(d, 2 * q + 1)
  {}

  lemma DecodedIs(s: seq<char>, bytes: seq<Byte>)
    requires forall k :: 0 <= k < |bytes| ==> bytes[k] == ByteAt(Digits(s), k)
    ensures bytes == Decoded(s, |bytes|)
  {
    hide Digits, ByteAt;
  }

  // ---------- both together ----------

  /** Pair `k` of the reversed digits is pair `k` from the end. */
  lemma {:induction false} PairAt(d: seq<char>, n: nat, k: nat)
    requires |d| == 2 * n && k < n
    ensures PairsReversed(d)[2 * k] == d[2 * (n - 1 - k)] && PairsReversed(d)[2 * k + 1] == d[2 * (n - 1 - k) + 1]
  {
    if n >= 2 && 0 < k < n - 1 {
      PairAt(d[2..|d| - 2], n - 2, k - 1);
    }
  }

  function Backwards(bytes: seq<Byte>): seq<Byte> {
    seq(|bytes|, k requires 0 <= k < |bytes| => bytes[|bytes| - 1 - k])
  }

  lemma WholeRun(s: seq<char>)
    requires IsHexString(s)
    ensures Digits(s) == s[Start(s)..]
  {
    HexRunIs(s[Start(s)..], |s| - Start(s));
  }

  lemma ReversedByteAt(d: seq<char>, n: nat, k: nat)
    requires AllHex(d) && AllHex(PairsReversed(d)) && |d| == 2 * n
    ensures ByteAt(PairsReversed(d), k) == if k < n then ByteAt(d, n - 1 - k) else 0
  {
    hide PairsReversed, Value, AllHex;
    if k < n { PairAt(d, n, k); }
  }

  /** Reversing 2n digits and then decoding gives the n bytes in reverse order, and zeros. */
  lemma ReversedDecodes(s: seq<char>, n: nat, size: nat)
    requires IsHexString(s) && |Digits(s)| == 2 * n && size >= n
    ensures Decoded(Reversed(s), size) == Backwards(Decoded(s, n)) + seq(size - n, _ => 0)
  {
    hide *;
    ReversedDigits(s);
    var d, bytes, zeros := Digits(s), Backwards(Decoded(s, n)), seq(size - n, _ => 0);
    BackwardsIs(Decoded(s, n));
    forall k | 0 <= k < size
      ensures (bytes + zeros)[k] == ByteAt(Digits(Reversed(s)), k)
    {
      ReversedByteAt(d, n, k);
      if k < n {
        DecodedAt(s, n, n - 1 - k);
      }
    }
    DecodedIs(Reversed(s), bytes + zeros);
  }

  lemma ReversedDigits(s: seq<char>)
    requires IsHexString(s)
    ensures Digits(Reversed(s)) == PairsReversed(Digits(s))
  {
    hide PairsReversed, Digits;
    ReversedHex(s);
    WholeRun(s);
    WholeRun(Reversed(s));
  }

  lemma BackwardsIs(bytes: seq<Byte>)
    ensures |Backwards(bytes)| == |bytes|
    ensures forall k :: 0 <= k < |bytes| ==> Backwards(bytes)[k] == bytes[|bytes| - 1 - k]
  {}

  lemma DecodedAt(s: seq<char>, n: nat, k: nat)
    requires k < n
    ensures |Decoded(s, n)| == n && Decoded(s, n)[k] == ByteAt(Digits(s), k)
  {}

  /** The digits of a byte. */
  function Digit(v: nat): (c: char)
    requires v < 16
    ensures IsHex(c) && Value(c) == v
  {
    if v < 10 then v as char + '0' else (v - 10) as char + 'a'
  }

  function HexText(bytes: seq<Byte>): (d: seq<char>)
    ensures |d| == 2 * |bytes| && AllHex(d)
  {
    if bytes == [] then [] else [Digit(bytes[0] / 16), Digit(bytes[0] % 16)] + HexText(bytes[1..])
  }

  lemma {:induction false} HexTextAt(bytes: seq<Byte>, k: nat)
    requires k < |bytes|
    ensures ByteAt(HexText(bytes), k) == bytes[k]
  {
    if k > 0 { HexTextAt(bytes[1..], k - 1); }
  }

  lemma StartOfDigits(d: seq<char>)
    requires AllHex(d)
    ensures Start(d) == 0 && Start("0x" + d) == 2
  {
    BlanksAre(d, 0);
    BlanksAre("0x" + d, 0);
  }

  /** Printing bytes in hex, turning the string round and decoding it returns the bytes in
      reverse order: the byte order that the controller takes. */
  lemma HexRoundTrip(bytes: seq<Byte>)
    ensures Decoded("0x" + HexText(bytes), |bytes|) == bytes
    ensures Decoded(Reversed("0x" + HexText(bytes)), |bytes|) == Backwards(bytes)
  {
    hide HexText, Value, ByteAt, PairsReversed, Reversed;
    var s := "0x" + HexText(bytes);
    StartOfDigits(HexText(bytes));
    assert s[2..] == HexText(bytes);
    WholeRun(s);
    forall k | 0 <= k < |bytes|
      ensures Decoded(s, |bytes|)[k] == bytes[k]
    {
      HexTextAt(bytes, k);
    }
    ReversedDecodes(s, |bytes|, |bytes|);
  }

  // ---------- the same in characters and numbers ----------

  lemma LowerDigit(v: nat)
    requires v < 16
    ensures IsHex("0123456789abcdef"[v]) && Value("0123456789abcdef"[v]) == v
  {}

  lemma UpperDigit(v: nat)
    requires v < 16
    ensures IsHex("0123456789ABCDEF"[v]) && Value("0123456789ABCDEF"[v]) == v
  {}

  /** `c` is a digit for `v`, in either case. */
  predicate Spells(c: char, v: nat) {
    v < 16 && (c == "0123456789abcdef"[v] || c == "0123456789ABCDEF"[v])
  }

  lemma SpelledDigit(c: char, v: nat)
    requires Spells(c, v)
    ensures IsHex(c) && Value(c) == v
  {
    LowerDigit(v);
    UpperDigit(v);
    hide IsHex, Value;
  }

  lemma NoDigit(c: char)
    requires c !in "0123456789abcdefABCDEF"
    ensures !IsHex(c)
  {
    assert "0123456789abcdefABCDEF" == ['0', '1', '2', '3', '4', '5', '6', '7', '8', '9',
      'a', 'b', 'c', 'd', 'e', 'f', 'A', 'B', 'C', 'D', 'E', 'F'];
  }

  /** Blanks, perhaps 0x, then digits `d` up to the end or a character that is none. */
  lemma DigitsAre(blanks: seq<char>, zx: bool, d: seq<char>, rest: seq<char>)
    requires forall k :: 0 <= k < |blanks| ==> IsBlank(blanks[k])
    requires AllHex(d) && (rest == [] || (!IsHex(rest[0]) && (zx || |d| > 1 || (rest[0] != 'x' && !IsBlank(rest[0])))))
    ensures var s := blanks + (if zx then "0x" else "") + d + rest;
      Start(s) == |blanks| + (if zx then 2 else 0) && Digits(s) == d
  {
    hide IsHex, IsBlank, Start;
    StartIs(blanks, zx, d, rest);
    var s, b := blanks + (if zx then "0x" else "") + d + rest, |blanks| + (if zx then 2 else 0);
    var t := s[b..];
    assert t == d + rest;
    HexRunIs(t, |d|);
    assert t[..|d|] == d;
  }

  lemma StartIs(blanks: seq<char>, zx: bool, d: seq<char>, rest: seq<char>)
    requires forall k :: 0 <= k < |blanks| ==> IsBlank(blanks[k])
    requires AllHex(d) && (rest == [] || (!IsHex(rest[0]) && (zx || |d| > 1 || (rest[0] != 'x' && !IsBlank(rest[0])))))
    ensures Start(blanks + (if zx then "0x" else "") + d + rest) == |blanks| + (if zx then 2 else 0)
  {
    var s, t := blanks + (if zx then "0x" else "") + d + rest, (if zx then "0x" else "") + d + rest;
    assert s == blanks + t;
    assert !zx ==> t == d + rest;
    BlanksAre(s, |blanks|);
  }

  /** What is decoded from digits in either case: digit `k` is nibble `k`, high nibbles first,
      and nibbles that are not there are zero. */
  lemma DecodesDigits(blanks: seq<char>, zx: bool, nibbles: seq<nat>, d: seq<char>, rest: seq<char>, size: nat)
    requires forall k :: 0 <= k < |blanks| ==> blanks[k] == ' ' || blanks[k] == '\t'
    requires |d| == |nibbles| && forall k :: 0 <= k < |d| ==>
      nibbles[k] < 16 && (d[k] == "0123456789abcdef"[nibbles[k]] || d[k] == "0123456789ABCDEF"[nibbles[k]])
    requires rest == [] ||
      (rest[0] !in "0123456789abcdefABCDEF" && (zx || |d| > 1 || (rest[0] != 'x' && rest[0] != ' ' && rest[0] != '\t')))
    ensures var bytes := Decoded(blanks + (if zx then "0x" else "") + d + rest, size);
      forall k :: 0 <= k < size ==>
        bytes[k] == (if 2 * k < |d| then 16 * nibbles[2 * k] else 0) + (if 2 * k + 1 < |d| then nibbles[2 * k + 1] else 0)
  {
    hide IsHex, Value, Start, Digits;
    forall k | 0 <= k < |d|
      ensures IsHex(d[k]) && Value(d[k]) == nibbles[k]
    {
      SpelledDigit(d[k], nibbles[k]);
    }
    if rest != [] { NoDigit(rest[0]); }
    DigitsAre(blanks, zx, d, rest);
  }

  /** So every text that spells bytes in hex, in either case, decodes to them. Turned round it
      decodes to their reverse. */
  lemma DecodesBytes(blanks: seq<char>, zx: bool, bytes: seq<Byte>, d: seq<char>)
    requires forall k :: 0 <= k < |blanks| ==> blanks[k] == ' ' || blanks[k] == '\t'
    requires |d| == 2 * |bytes|
    requires forall k :: 0 <= k < |bytes| ==>
      && (d[2 * k] == "0123456789abcdef"[bytes[k] / 16] || d[2 * k] == "0123456789ABCDEF"[bytes[k] / 16])
      && (d[2 * k + 1] == "0123456789abcdef"[bytes[k] % 16] || d[2 * k + 1] == "0123456789ABCDEF"[bytes[k] % 16])
    ensures var s, n := blanks + (if zx then "0x" else "") + d, |bytes|;
      && Decoded(s, n) == bytes
      && forall k :: 0 <= k < n ==> Decoded(Reversed(s), n)[k] == bytes[n - 1 - k]
  {
    hide *;
    var nibbles := NibblesOf(bytes);
    var s, n := blanks + (if zx then "0x" else "") + d, |bytes|;
    assert s + [] == s;
    forall k | 0 <= k < |d|
      ensures nibbles[k] < 16 && (d[k] == "0123456789abcdef"[nibbles[k]] || d[k] == "0123456789ABCDEF"[nibbles[k]])
    {
      NibbleIs(bytes, k);
    }
    DecodesDigits(blanks, zx, nibbles, d, [], n);
    WholeBytes(Decoded(s, n), bytes);
    SpelledString(blanks, zx, nibbles, d);
    ReversedDecodes(s, n, n);
    BackwardsIs(bytes);
  }

  function NibblesOf(bytes: seq<Byte>): (r: seq<nat>)
    ensures |r| == 2 * |bytes|
  {
    seq(2 * |bytes|, k requires 0 <= k < 2 * |bytes| => if k % 2 == 0 then bytes[k / 2] / 16 else bytes[k / 2] % 16)
  }

  lemma NibbleIs(bytes: seq<Byte>, k: nat)
    requires k < 2 * |bytes|
    ensures k == 2 * (k / 2) || k == 2 * (k / 2) + 1
    ensures NibblesOf(bytes)[k] == if k == 2 * (k / 2) then bytes[k / 2] / 16 else bytes[k / 2] % 16
    ensures NibblesOf(bytes)[k] < 16
  {}

  lemma WholeBytes(x: seq<Byte>, bytes: seq<Byte>)
    requires |x| == |bytes|
    requires forall k :: 0 <= k < |bytes| ==> x[k] == 16 * NibblesOf(bytes)[2 * k] + NibblesOf(bytes)[2 * k + 1]
    ensures x == bytes
  {
    forall k | 0 <= k < |bytes|
      ensures x[k] == bytes[k]
    {
      NibbleIs(bytes, 2 * k);
      NibbleIs(bytes, 2 * k + 1);
    }
  }

  lemma SpelledString(blanks: seq<char>, zx: bool, nibbles: seq<nat>, d: seq<char>)
    requires forall k :: 0 <= k < |blanks| ==> blanks[k] == ' ' || blanks[k] == '\t'
    requires |d| == |nibbles| && forall k :: 0 <= k < |d| ==>
      nibbles[k] < 16 && (d[k] == "0123456789abcdef"[nibbles[k]] || d[k] == "0123456789ABCDEF"[nibbles[k]])
    ensures var s := blanks + (if zx then "0x" else "") + d;
      IsHexString(s) && Digits(s) == d
  {
    hide IsHex, Value, Start, Digits;
    forall k | 0 <= k < |d|
      ensures IsHex(d[k])
    {
      SpelledDigit(d[k], nibbles[k]);
    }
    DigitsAre(blanks, zx, d, []);
    var x := if zx then "0x" else "";
    assert blanks + x + d + [] == blanks + x + d;
    assert (blanks + x + d)[|blanks| + |x|..] == d;
  }

  /** For any number of digits, pair `k` from the front changes places with pair `k` from the
      end. */
  lemma {:induction false} PairsSwap(d: seq<char>, k: nat)
    requires k < |d| / 4
    ensures var r, m := PairsReversed(d), |d|;
      && r[2 * k] == d[m - 2 - 2 * k] && r[2 * k + 1] == d[m - 1 - 2 * k]
      && r[m - 2 - 2 * k] == d[2 * k] && r[m - 1 - 2 * k] == d[2 * k + 1]
  {
    hide PairsReversed;
    var m := |d|;
    PairsStep(d);
    if k > 0 {
      var mid := d[2..m - 2];
      PairsSwap(mid, k - 1);
      var r := PairsReversed(mid);
      assert PairsReversed(d) == d[m - 2..] + r + d[..2];
    }
  }

  /** The up to three digits left in the middle stay. */
  lemma {:induction false} MiddleStays(d: seq<char>, k: nat)
    requires 2 * (|d| / 4) <= k < |d| - 2 * (|d| / 4)
    ensures PairsReversed(d)[k] == d[k]
  {
    if |d| >= 4 { MiddleStays(d[2..|d| - 2], k - 2); }
  }
}
