/** env_funcs.c: pointer scans over the packed environment and edits in place.

    Pointers are indices into the data buffer, and `till` is its end. */
module EnvFuncs {
  import opened Basics

  import opened Checksum
  import opened EnvFormat

  const ENV_MAX_VAR_NAME_LEN: nat := 50

  predicate WellFormed(s: seq<byte>) {
    Rep(s, Unpack(s))
  }

  /** `while (*p) p++`, not past the end of the buffer. */
  method SkipString(buf: array<byte>, from: nat) returns (p: nat)
    requires from <= buf.Length
    ensures p == from + StringLength(buf[from..])
  {
    p := from;
    while p < buf.Length && buf[p] != 0
      invariant from <= p <= buf.Length
      invariant p + StringLength(buf[p..]) == from + StringLength(buf[from..])
    {
      assert buf[p..][1..] == buf[p + 1..];
      p := p + 1;
    }
  }

  lemma FirstString(s: seq<byte>, rs: seq<Str>)
    requires Rep(s, rs) && rs != []
    ensures StringLength(s) == |rs[0]| && |rs[0]| + 1 < |s| && Rep(s[|rs[0]| + 1..], rs[1..])
    ensures s[..|rs[0]|] == rs[0] && IsEntry(rs[0]) && s[|rs[0]|] == 0
  {
    RepTail(s, rs);
    assert IsEntry(rs[0]);
    StringEnds(s, |rs[0]|);
  }

  /** get_next_env_string: the string after the one at `from`; `rs` are the strings from
      `from` on. */
  method GetNextEnvString(buf: array<byte>, from: nat, ghost rs: seq<Str>) returns (next: Option<nat>)
    requires from < buf.Length && Rep(buf[from..], rs)
    ensures rs == [] ==> next == None
    ensures rs != [] ==>
      var n := from + |rs[0]| + 1;
      next == Some(n) && n < buf.Length && Rep(buf[n..], rs[1..])
  {
    hide *;
    RepHead(buf[from..], rs);
    if buf[from] == 0 { return None; }
    FirstString(buf[from..], rs);
    var p := SkipString(buf, from);
    if p == buf.Length { return None; }
    assert buf[from..][|rs[0]| + 1..] == buf[p + 1..];
    next := Some(p + 1);
  }

  /** strstr(data, pattern) == data: the buffer has `pattern` at `from`. */
  method StartsWith(buf: array<byte>, from: nat, pattern: Str) returns (b: bool)
    requires from <= buf.Length
    ensures b <==> pattern <= buf[from..]
  {
    var i := 0;
    while i < |pattern| && from + i < buf.Length && buf[from + i] == pattern[i]
      invariant i <= |pattern| && from + i <= buf.Length
      invariant buf[from..from + i] == pattern[..i]
    {
      i := i + 1;
    }
    b := i == |pattern|;
    assert buf[from..][..i] == pattern[..i];
    assert pattern[..|pattern|] == pattern;
    assert !b && from + i < buf.Length ==> buf[from..][i] != pattern[i];
  }

  lemma PatternAssigns(s: seq<byte>, rs: seq<Str>, key: Str)
    requires Rep(s, rs) && rs != [] && IsString(key)
    ensures key + [EQUALS] <= s <==> Assigns(rs[0], key)
  {
    FirstString(s, rs);
    hide Rep;
    var e, p := rs[0], key + [EQUALS];
    assert forall k :: 0 <= k < |e| ==> s[k] == s[..|e|][k];
    if p <= s {
      if |e| < |p| { EndInPattern(s, p, |e|); }
      assert e[..|key|] == s[..|key|] == p[..|key|];
    }
    if Assigns(e, key) {
      assert s[..|p|] == e[..|p|] == p;
    }
  }

  lemma EndInPattern(s: seq<byte>, p: Str, n: nat)
    requires p <= s && n < |p| && s[n] == 0
    ensures 0 in p
  {
    assert p[n] == s[n];
  }

  /** get_var_addr. */
  method GetVarAddr(buf: array<byte>, from: nat, varName: Str, ghost rs: seq<Str>) returns (addr: Option<nat>)
    requires from < buf.Length && Rep(buf[from..], rs)
    requires IsString(varName) && |varName| < ENV_MAX_VAR_NAME_LEN
    ensures addr == match Lookup(rs, varName)
      case None => None
      case Some(_) => Some(from + |Body(rs[..Find(rs, varName)])|)
    ensures addr.Some? ==> addr.value < buf.Length && Rep(buf[addr.value..], rs[Find(rs, varName)..])
  {
    hide *;
    var data := from;
    ghost var i := 0;
    SearchStart(rs, varName);
    assert rs[0..] == rs;
    while true
      invariant from <= data < buf.Length && i <= |rs|
      invariant Searched(rs, varName, from, data, i)
      invariant Rep(buf[data..], rs[i..])
      decreases |rs| - i
    {
      RepHead(buf[data..], rs[i..]);
      if buf[data] != 0 {
        PatternAssigns(buf[data..], rs[i..], varName);
        var found := StartsWith(buf, data, varName + [EQUALS]);
        if found {
          SearchHit(rs, varName, from, data, i);
          return Some(data);
        }
      }
      var next := GetNextEnvString(buf, data, rs[i..]);
      if next == None {
        SearchMiss(rs, varName, from, data, i);
        return None;
      }
      SearchStep(rs, varName, from, data, i);
      assert rs[i..][1..] == rs[i + 1..];
      data := next.value;
      i := i + 1;
    }
  }

  /** The search has passed `i` strings without a hit. */
  ghost predicate Searched(rs: seq<Str>, key: Str, from: nat, data: nat, i: nat) {
    i <= |rs| && data == from + |Body(rs[..i])| && i <= Find(rs, key)
  }

  lemma SearchStart(rs: seq<Str>, key: Str)
    ensures forall from: nat :: Searched(rs, key, from, from, 0)
  {}

  lemma SearchHit(rs: seq<Str>, key: Str, from: nat, data: nat, i: nat)
    requires Searched(rs, key, from, data, i) && i < |rs| && Assigns(rs[i..][0], key)
    ensures Find(rs, key) == i && Lookup(rs, key).Some? && data == from + |Body(rs[..i])|
  {}

  lemma SearchMiss(rs: seq<Str>, key: Str, from: nat, data: nat, i: nat)
    requires Searched(rs, key, from, data, i) && rs[i..] == []
    ensures Lookup(rs, key) == None
  {}

  lemma SearchStep(rs: seq<Str>, key: Str, from: nat, data: nat, i: nat)
    requires Searched(rs, key, from, data, i) && rs[i..] != [] && !Assigns(rs[i..][0], key)
    ensures Searched(rs, key, from, data + |rs[i..][0]| + 1, i + 1)
  {
    assert rs[..i + 1] == rs[..i] + [rs[i]];
    BodyAppend(rs[..i], [rs[i]]);
    BodyOne(rs[i]);
  }

  /** get_end_mark: the second of the two zeros that end the environment. */
  method GetEndMark(buf: array<byte>, from: nat, ghost rs: seq<Str>) returns (end: Option<nat>)
    requires from + 1 < buf.Length && Rep(buf[from..], rs)
    ensures end == Some(from + if rs == [] then 1 else |Body(rs)|)
    ensures end.value < buf.Length && buf[end.value] == 0
  {
    hide *;
    var p := from;
    ghost var i := 0;
    assert rs[0..] == rs;
    MarkStart(rs);
    RepBounds(buf[from..], rs);
    if rs == [] { RepHead(buf[from..], rs); RepEmpty(buf[from..]); }
    while p < buf.Length
      invariant from <= p < buf.Length && i <= |rs| && (i == 0 || i < |rs|)
      invariant p == from + |Body(rs[..i])|
      invariant Rep(buf[p..], rs[i..])
      decreases |rs| - i
    {
      RepHead(buf[p..], rs[i..]);
      if rs[i..] != [] { FirstString(buf[p..], rs[i..]); } else { NoString(buf[p..]); }
      ghost var q := p;
      p := SkipString(buf, p);
      if p >= buf.Length { return None; }
      p := p + 1;
      if rs == [] {
        assert buf[p] == buf[from..][1];
      } else {
        MarkStep(rs, i);
        assert buf[q..][|rs[i]| + 1..] == buf[p..];
        i := i + 1;
        RepHead(buf[p..], rs[i..]);
        if rs[i..] == [] { MarkDone(rs, i); }
      }
      if buf[p] == 0 { return Some(p); }
    }
  }

  lemma MarkStart(rs: seq<Str>)
    ensures |Body(rs[..0])| == 0
  {}

  lemma MarkStep(rs: seq<Str>, i: nat)
    requires i < |rs|
    ensures |Body(rs[..i + 1])| == |Body(rs[..i])| + |rs[i]| + 1
    ensures rs[i..][0] == rs[i] && rs[i..][1..] == rs[i + 1..]
  {
    assert rs[..i + 1] == rs[..i] + [rs[i]];
    BodyAppend(rs[..i], [rs[i]]);
    BodyOne(rs[i]);
  }

  lemma MarkDone(rs: seq<Str>, i: nat)
    requires i <= |rs| && rs[i..] == []
    ensures Body(rs[..i]) == Body(rs)
  {
    assert rs[..i] == rs;
  }

  lemma RepBounds(s: seq<byte>, rs: seq<Str>)
    requires Rep(s, rs)
    ensures |Body(rs)| < |s|
  {}

  lemma RepEmpty(s: seq<byte>)
    requires Rep(s, [])
    ensures forall k :: 0 <= k < |s| ==> s[k] == 0
  {}

  lemma NoString(s: seq<byte>)
    requires s != [] && s[0] == 0
    ensures StringLength(s) == 0
  {}

  // ---------- remove_var ----------

  /** The first loop of remove_var: moves `[src, last]` down to `dst`, front to back. */
  method MoveDown(buf: array<byte>, dst: nat, src: nat, last: nat) returns (next: nat)
    requires dst <= src <= last + 1 <= buf.Length
    modifies buf
    ensures next == dst + (last + 1 - src)
    ensures buf[..] == Moved(old(buf[..]), dst, src, last + 1)
  {
    hide Moved;
    ghost var o := buf[..];
    next := dst;
    var p := src;
    MovedNothing(o, dst, src);
    while p <= last
      invariant src <= p <= last + 1 && next == dst + (p - src)
      invariant buf[..] == Moved(o, dst, src, p)
    {
      MovedStep(o, dst, src, p);
      ghost var v := buf[..];
      buf[next] := buf[p];
      assert buf[..] == v[next := v[p]];
      next := next + 1;
      p := p + 1;
    }
  }

  /** `s` with `[src, p)` copied down to `dst`. */
  function Moved(s: seq<byte>, dst: nat, src: nat, p: nat): (r: seq<byte>)
    requires dst <= src <= p <= |s|
    ensures |r| == |s|
  {
    seq(|s|, k requires 0 <= k < |s| => if dst <= k < dst + (p - src) then s[src + (k - dst)] else s[k])
  }

  lemma MovedNothing(s: seq<byte>, dst: nat, src: nat)
    requires dst <= src <= |s|
    ensures Moved(s, dst, src, src) == s
  {}

  lemma MovedStep(s: seq<byte>, dst: nat, src: nat, p: nat)
    requires dst <= src <= p < |s|
    ensures Moved(s, dst, src, p)[p] == s[p]
    ensures Moved(s, dst, src, p)[dst + (p - src) := s[p]] == Moved(s, dst, src, p + 1)
  {}

  /** Its second loop: clears what is left up to `last`. */
  method ClearUpTo(buf: array<byte>, from: nat, last: nat)
    requires from <= last + 1 <= buf.Length
    modifies buf
    ensures buf[..] == old(buf[..from]) + Zeros(last + 1 - from) + old(buf[last + 1..])
  {
    var p := from;
    while p <= last
      invariant from <= p <= last + 1
      invariant forall k :: 0 <= k < buf.Length ==> buf[k] == if from <= k < p then 0 else old(buf[k])
    {
      buf[p] := 0;
      p := p + 1;
    }
  }

  /** remove_var: the first entry of that name goes, the order of the rest stays. */
  method RemoveVar(buf: array<byte>, from: nat, varName: Str, ghost rs: seq<Str>) returns (ok: bool)
    requires from < buf.Length && Rep(buf[from..], rs)
    requires IsString(varName) && |varName| < ENV_MAX_VAR_NAME_LEN
    modifies buf
    ensures ok <==> Lookup(rs, varName).Some?
    ensures Rep(buf[from..], Delete(rs, varName))
    ensures buf[..from] == old(buf[..from])
  {
    hide *;
    var addr := GetVarAddr(buf, from, varName, rs);
    if addr == None {
      NotFound(rs, varName);
      return false;
    }
    ghost var i := Find(rs, varName);
    Found(rs, varName);
    RepBounds(buf[from..], rs);
    FoundBounds(buf[from..], rs, i);
    var envEnd := GetEndMark(buf, addr.value, rs[i..]);
    var varEnd := GetNextEnvString(buf, addr.value, rs[i..]);
    ghost var before := buf[..];
    assert before[from..] == buf[from..];
    var p := MoveDown(buf, addr.value, varEnd.value, envEnd.value);
    ClearUpTo(buf, p, envEnd.value);
    assert buf[..][from..] == buf[from..];
    Deleted(before, buf[..], from, rs, i);
    ok := true;
  }

  lemma NotFound(rs: seq<Str>, key: Str)
    requires Lookup(rs, key) == None
    ensures Delete(rs, key) == rs
  {}

  lemma Found(rs: seq<Str>, key: Str)
    requires Lookup(rs, key).Some?
    ensures Find(rs, key) < |rs| && Delete(rs, key) == rs[..Find(rs, key)] + rs[Find(rs, key) + 1..]
  {}

  lemma FoundBounds(s: seq<byte>, rs: seq<Str>, i: nat)
    requires i < |rs|
    ensures |Body(rs[..i])| + |rs[i]| + 1 <= |Body(rs)|
    ensures |Body(rs)| == |Body(rs[..i])| + |Body(rs[i..])|
    ensures rs[i..] != [] && rs[i..][0] == rs[i]
  {
    assert rs == rs[..i] + rs[i..];
    BodyAppend(rs[..i], rs[i..]);
  }

  /** The two loops together delete entry `i`. */
  lemma Deleted(before: seq<byte>, after: seq<byte>, from: nat, rs: seq<Str>, i: nat)
    requires from < |before| && Rep(before[from..], rs) && i < |rs|
    requires |Body(rs[..i])| + |rs[i]| + 1 <= |Body(rs)|
    requires
      var addr, last := from + |Body(rs[..i])|, from + |Body(rs)|;
      var moved := Moved(before, addr, addr + |rs[i]| + 1, last + 1);
      var p := last - |rs[i]|;
      after == moved[..p] + Zeros(last + 1 - p) + moved[last + 1..]
    ensures Rep(after[from..], rs[..i] + rs[i + 1..]) && after[..from] == before[..from]
  {
    hide Rep, Body;
    RepBounds(before[from..], rs);
    RepEnd(before[from..], rs);
    var s, a, n, last := before[from..], |Body(rs[..i])|, |rs[i]| + 1, |Body(rs)|;
    Spliced(before, after, from, a, n, last);
    DeletedRep(s, rs, i, after[from..]);
  }

  lemma RepEnd(s: seq<byte>, rs: seq<Str>)
    requires Rep(s, rs)
    ensures s[|Body(rs)|] == 0
  {}

  lemma Spliced(before: seq<byte>, after: seq<byte>, from: nat, a: nat, n: nat, last: nat)
    requires from + last < |before| && 0 < n && a + n <= last && before[from + last] == 0
    requires var moved := Moved(before, from + a, from + a + n, from + last + 1);
      after == moved[..from + last + 1 - n] + Zeros(n) + moved[from + last + 1..]
    ensures after[..from] == before[..from]
    ensures after[from..] == before[from..][..a] + before[from..][a + n..last] + Zeros(n + 1) + before[from..][last + 1..]
  {
    var s, t := before[from..], after[from..];
    forall k | 0 <= k < |s|
      ensures |t| == |s| && t[k] == SplicedAt(s, a, n, last, k)
    {
      assert t[k] == after[from + k];
    }
    SplicedPieces(s, a, n, last, t);
  }

  function SplicedAt(s: seq<byte>, a: nat, n: nat, last: nat, k: nat): byte
    requires a + n <= last < |s| && k < |s|
  {
    if k < a then s[k] else if k < last - n then s[k + n] else if k <= last then 0 else s[k]
  }

  lemma SplicedPieces(s: seq<byte>, a: nat, n: nat, last: nat, t: seq<byte>)
    requires 0 < n && a + n <= last < |s| == |t|
    requires forall k :: 0 <= k < |s| ==> t[k] == SplicedAt(s, a, n, last, k)
    ensures t == s[..a] + s[a + n..last] + Zeros(n + 1) + s[last + 1..]
  {
    var x, y, z, w := s[..a], s[a + n..last], Zeros(n + 1), s[last + 1..];
    var r := x + y + z + w;
    assert |r| == |t|;
    forall k | 0 <= k < |t|
      ensures t[k] == r[k]
    {
      assert t[k] == SplicedAt(s, a, n, last, k);
      if k < a {
        assert r[k] == x[k] == s[k];
      } else if k < last - n {
        assert r[k] == y[k - a] == s[k + n];
      } else if k <= last {
        assert r[k] == z[k - (last - n)] == 0;
      } else {
        assert r[k] == w[k - last - 1] == s[k];
      }
    }
  }

  lemma DeletedRep(s: seq<byte>, rs: seq<Str>, i: nat, t: seq<byte>)
    requires Rep(s, rs) && i < |rs| && |t| == |s|
    requires |Body(rs[..i])| + |rs[i]| + 1 <= |Body(rs)|
    requires var a, n, last := |Body(rs[..i])|, |rs[i]| + 1, |Body(rs)|;
      t == s[..a] + s[a + n..last] + Zeros(n + 1) + s[last + 1..]
    ensures Rep(t, rs[..i] + rs[i + 1..])
  {
    hide *;
    var x, e, y := rs[..i], rs[i], rs[i + 1..];
    BodyAround(rs, i);
    RepMeans(s, rs);
    CutOut(s, Body(x), e + [0], Body(y), t);
    RepMade(t, x + y);
  }

  lemma BodyAround(rs: seq<Str>, i: nat)
    requires i < |rs|
    ensures Body(rs) == Body(rs[..i]) + (rs[i] + [0] + Body(rs[i + 1..]))
    ensures Body(rs[..i] + rs[i + 1..]) == Body(rs[..i]) + Body(rs[i + 1..])
    ensures AreEntries(rs) ==> AreEntries(rs[..i] + rs[i + 1..])
  {
    hide *;
    var x, e, y := rs[..i], rs[i], rs[i + 1..];
    SplitAround(rs, i);
    BodyAppend(x, [e] + y);
    BodyAppend([e], y);
    BodyOne(e);
    BodyAppend(x, y);
    if AreEntries(rs) { EntriesAround(rs, i); }
  }

  lemma SplitAround(rs: seq<Str>, i: nat)
    requires i < |rs|
    ensures rs == rs[..i] + ([rs[i]] + rs[i + 1..])
  {}

  lemma EntriesAround(rs: seq<Str>, i: nat)
    requires i < |rs| && AreEntries(rs)
    ensures AreEntries(rs[..i] + rs[i + 1..])
  {
    hide IsEntry;
    var d := rs[..i] + rs[i + 1..];
    forall k | 0 <= k < |d|
      ensures IsEntry(d[k])
    {
      assert d[k] == rs[if k < i then k else k + 1];
    }
  }

  lemma RepMeans(s: seq<byte>, es: seq<Str>)
    requires Rep(s, es)
    ensures AreEntries(es) && |Body(es)| < |s| && s == Body(es) + Zeros(|s| - |Body(es)|)
  {}

  lemma RepMade(s: seq<byte>, es: seq<Str>)
    requires AreEntries(es) && |Body(es)| < |s| && s == Body(es) + Zeros(|s| - |Body(es)|)
    ensures Rep(s, es)
  {}

  lemma CutOut(s: seq<byte>, x: seq<byte>, e: seq<byte>, y: seq<byte>, t: seq<byte>)
    requires |x + e + y| < |s| && s == x + (e + y) + Zeros(|s| - |x| - |e| - |y|)
    requires t == s[..|x|] + s[|x| + |e|..|x| + |e| + |y|] + Zeros(|e| + 1) + s[|x| + |e| + |y| + 1..]
    ensures t == x + y + Zeros(|s| - |x| - |y|)
  {
    assert s[..|x|] == x;
    assert s[|x| + |e|..|x| + |e| + |y|] == y;
    assert s[|x| + |e| + |y| + 1..] == Zeros(|s| - |x| - |e| - |y| - 1);
  }

  // ---------- add_var ----------

  /** get_var_name: the part before the first '='. */
  method GetVarName(str: Str) returns (name: Option<Str>)
    ensures name == if HasName(str) then Some(NameOf(str)) else None
  {
    hide NameOf;
    var i := 0;
    while i < |str| && str[i] != EQUALS
      invariant i <= |str| && forall k :: 0 <= k < i ==> str[k] != EQUALS
    {
      i := i + 1;
    }
    if i < |str| {
      NameIs(str, i);
      name := Some(str[..i]);
    } else {
      name := None;
    }
  }

  /** What add_var demands of its callers: a C string whose name fits in `var_name[50]`, and
      room for the new entry and both terminators once the old entry is gone. */
  predicate CanAdd(es: seq<Str>, entry: Str, size: nat) {
    IsString(entry) && (HasName(entry) ==>
      |NameOf(entry)| < ENV_MAX_VAR_NAME_LEN && |Body(Put(es, entry))| < size)
  }

  /** add_var: deletes the old entry of that name, if any, and appends the new one. */
  method AddVar(buf: array<byte>, varStr: Str, ghost rs: seq<Str>) returns (ok: bool)
    requires 2 <= buf.Length && Rep(buf[..], rs) && CanAdd(rs, varStr, buf.Length)
    modifies buf
    ensures ok <==> HasName(varStr)
    ensures ok ==> Rep(buf[..], Put(rs, varStr))
    ensures !ok ==> buf[..] == old(buf[..])
  {
    hide *;
    assert buf[..] == buf[0..];
    var name := GetVarName(varStr);
    if name == None { return false; }
    AddFacts(rs, varStr, buf.Length);
    var addr := GetVarAddr(buf, 0, name.value, rs);
    if addr.Some? {
      ghost var i := Find(rs, name.value);
      FoundAgain(rs, name.value);
      var removed := RemoveVar(buf, addr.value, name.value, rs[i..]);
      RepBehind(old(buf[..]), buf[..], rs, i, addr.value, Delete(rs[i..], name.value));
      if !removed { return false; }
    } else {
      NotFound(rs, name.value);
    }
    assert buf[..] == buf[0..];
    ghost var d := Delete(rs, name.value);
    ghost var s := buf[..];
    var end := GetEndMark(buf, 0, d);
    EndOf(s, d);
    Append(buf, if end.value == 1 then 0 else end.value, varStr);
    AppendedRep(s, d, varStr, buf[..]);
    ok := true;
  }

  lemma AddFacts(rs: seq<Str>, entry: Str, size: nat)
    requires HasName(entry) && CanAdd(rs, entry, size)
    ensures IsString(entry) && IsEntry(entry) && IsString(NameOf(entry)) && |NameOf(entry)| < ENV_MAX_VAR_NAME_LEN
    ensures |Body(Delete(rs, NameOf(entry)))| + |entry| + 1 < size
    ensures Put(rs, entry) == Delete(rs, NameOf(entry)) + [entry]
  {
    BodyAppend(Delete(rs, NameOf(entry)), [entry]);
    BodyOne(entry);
    hide Body;
  }

  lemma FoundAgain(rs: seq<Str>, key: Str)
    requires Lookup(rs, key).Some?
    ensures var i := Find(rs, key);
      i < |rs| && Lookup(rs[i..], key).Some? && rs[..i] + Delete(rs[i..], key) == Delete(rs, key)
  {}

  /** A buffer whose tail from a string start on was edited. */
  lemma RepBehind(before: seq<byte>, after: seq<byte>, rs: seq<Str>, i: nat, addr: nat, ds: seq<Str>)
    requires Rep(before, rs) && i <= |rs| && addr == |Body(rs[..i])| && addr <= |after|
    requires addr <= |before| && after[..addr] == before[..addr] && Rep(after[addr..], ds)
    ensures Rep(after, rs[..i] + ds)
  {
    assert rs == rs[..i] + rs[i..];
    BodyAppend(rs[..i], rs[i..]);
    BodyAppend(rs[..i], ds);
    assert before[..addr] == Body(rs)[..addr] == Body(rs[..i]);
    assert after == after[..addr] + after[addr..];
  }

  lemma EndOf(s: seq<byte>, rs: seq<Str>)
    requires Rep(s, rs)
    ensures rs != [] ==> 1 < |Body(rs)|
    ensures rs == [] ==> |Body(rs)| == 0
  {
    if rs != [] { assert IsEntry(rs[0]); }
  }

  /** The copy loop of add_var and the two terminators behind it. */
  method Append(buf: array<byte>, at: nat, str: Str)
    requires at + |str| + 1 < buf.Length && IsString(str)
    modifies buf
    ensures buf[..] == Overwritten(old(buf[..]), at, str + [0, 0])
  {
    ghost var o := buf[..];
    var p := at;
    var i := 0;
    assert Overwritten(o, at, str[..0]) == o;
    while p < buf.Length && i < |str|
      invariant p == at + i && i <= |str|
      invariant buf[..] == Overwritten(o, at, str[..i])
    {
      OverwriteMore(o, at, str[..i], str[i]);
      assert str[..i] + [str[i]] == str[..i + 1];
      buf[p] := str[i];
      p := p + 1;
      i := i + 1;
    }
    OverwriteMore(o, at, str, 0);
    OverwriteMore(o, at, str + [0], 0);
    assert str[..i] == str && str + [0] + [0] == str + [0, 0];
    buf[p] := 0;
    p := p + 1;
    buf[p] := 0;
  }

  function Overwritten(s: seq<byte>, at: nat, t: seq<byte>): (r: seq<byte>)
    requires at + |t| <= |s|
    ensures |r| == |s|
  {
    s[..at] + t + s[at + |t|..]
  }

  lemma OverwriteMore(s: seq<byte>, at: nat, t: seq<byte>, b: byte)
    requires at + |t| < |s|
    ensures Overwritten(s, at, t)[at + |t| := b] == Overwritten(s, at, t + [b])
  {}

  lemma AppendedRep(s: seq<byte>, d: seq<Str>, entry: Str, t: seq<byte>)
    requires Rep(s, d) && IsEntry(entry) && |Body(d)| + |entry| + 1 < |s|
    requires t == Overwritten(s, |Body(d)|, entry + [0, 0])
    ensures Rep(t, d + [entry])
  {
    hide *;
    RepMeans(s, d);
    BodyAppend(d, [entry]);
    BodyOne(entry);
    Padded(s, Body(d), entry, t);
    EntriesAppend(d, entry);
    RepMade(t, d + [entry]);
  }

  lemma EntriesAppend(d: seq<Str>, entry: Str)
    requires AreEntries(d) && IsEntry(entry)
    ensures AreEntries(d + [entry])
  {
    hide IsEntry;
  }

  /** Overwriting the start of the zeros. */
  lemma Padded(s: seq<byte>, b: seq<byte>, e: Str, t: seq<byte>)
    requires |b| + |e| + 1 < |s| && s == b + Zeros(|s| - |b|) && t == Overwritten(s, |b|, e + [0, 0])
    ensures t == b + (e + [0]) + Zeros(|s| - |b| - |e| - 1)
  {
    var r := b + (e + [0]) + Zeros(|s| - |b| - |e| - 1);
    forall k | 0 <= k < |s|
      ensures t[k] == r[k]
    {
      if k < |b| {
        assert s[k] == b[k];
      } else if k < |b| + |e| + 2 {
        assert t[k] == (e + [0, 0])[k - |b|];
      } else {
        assert s[k] == 0;
      }
    }
  }
}
