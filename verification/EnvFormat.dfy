/** The U-Boot environment as a value: a list of `name=value` strings, packed as
    `<string>\0<string>\0\0` in a buffer of fixed size.

    `Put` and `Delete` say what add_var and remove_var are for; `Lookup` is the map they
    implement. */
module EnvFormat {
  import opened Basics

  import opened Checksum

  type Str = seq<byte>

  const EQUALS: byte := 61       // '='

  // ---------- strings ----------

  /** A C string: no NUL inside. */
  predicate IsString(s: Str) {
    0 !in s
  }

  predicate IsEntry(s: Str) {
    s != [] && IsString(s)
  }

  predicate AreEntries(es: seq<Str>) {
    forall i :: 0 <= i < |es| ==> IsEntry(es[i])
  }

  predicate HasName(e: Str) {
    EQUALS in e
  }

  /** The part before the first '='. */
  function NameOf(e: Str): (name: Str)
    requires HasName(e)
    ensures |name| < |e| && name == e[..|name|] && EQUALS !in name && e[|name|] == EQUALS
  {
    if e[0] == EQUALS then [] else [e[0]] + NameOf(e[1..])
  }

  /** `e` is an assignment to `key`. */
  predicate Assigns(e: Str, key: Str) {
    |key| < |e| && e[..|key|] == key && e[|key|] == EQUALS
  }

  lemma AssignsName(e: Str, key: Str)
    requires EQUALS !in key
    ensures Assigns(e, key) <==> HasName(e) && NameOf(e) == key
  {
    if Assigns(e, key) {
      assert e[|key|] in e;
      var name := NameOf(e);
      SamePlace(e, EQUALS, |name|, |key|);
    }
  }

  lemma InPrefix(s: seq<byte>, c: byte, i: nat, j: nat)
    requires i < j <= |s| && s[i] == c
    ensures c in s[..j]
  {
    assert s[..j][i] == c;
  }

  /** A byte has only one first occurrence. */
  lemma SamePlace(s: seq<byte>, c: byte, i: nat, j: nat)
    requires i < |s| && j < |s| && s[i] == s[j] == c && c !in s[..i] && c !in s[..j]
    ensures i == j
  {
    if i < j { InPrefix(s, c, i, j); }
    if j < i { InPrefix(s, c, j, i); }
  }

  lemma NameIs(e: Str, n: nat)
    requires n < |e| && e[n] == EQUALS && EQUALS !in e[..n]
    ensures HasName(e) && NameOf(e) == e[..n]
  {
    SamePlace(e, EQUALS, |NameOf(e)|, n);
  }

  // ---------- the environment as a list ----------

  /** The index of the first assignment to `key`, or the length of the list. */
  function Find(es: seq<Str>, key: Str): (i: nat)
    ensures i <= |es|
    ensures i < |es| ==> Assigns(es[i], key)
    ensures forall j :: 0 <= j < i ==> !Assigns(es[j], key)
  {
    if es == [] || Assigns(es[0], key) then 0 else 1 + Find(es[1..], key)
  }

  function Delete(es: seq<Str>, key: Str): seq<Str> {
    var i := Find(es, key);
    if i < |es| then es[..i] + es[i + 1..] else es
  }

  /** The newest entry goes to the end; an older one of the same name goes away. */
  function Put(es: seq<Str>, entry: Str): seq<Str>
    requires HasName(entry)
  {
    Delete(es, NameOf(entry)) + [entry]
  }

  /** Every entry has a name, and no two the same. */
  predicate UniqueNames(es: seq<Str>) {
    && (forall i :: 0 <= i < |es| ==> HasName(es[i]))
    && forall i, j :: 0 <= i < j < |es| ==> NameOf(es[i]) != NameOf(es[j])
  }

  /** The environment as a map from names to entries. */
  function Lookup(es: seq<Str>, key: Str): Option<Str> {
    var i := Find(es, key);
    if i < |es| then Some(es[i]) else None
  }

  // ---------- packing ----------

  function Zeros(n: nat): (r: seq<byte>)
    ensures |r| == n
  {
    seq(n, _ => 0)
  }

  function Body(es: seq<Str>): seq<byte> {
    if es == [] then [] else es[0] + [0] + Body(es[1..])
  }

  /** `s` starts with the packed entries, and everything behind them is zero. */
  predicate Rep(s: seq<byte>, es: seq<Str>) {
    AreEntries(es) && |Body(es)| < |s| && s == Body(es) + Zeros(|s| - |Body(es)|)
  }

  /** The entries a buffer holds. */
  function Unpack(s: seq<byte>): seq<Str> {
    if s == [] || s[0] == 0 then [] else
    var n := StringLength(s);
    [s[..n]] + if n < |s| then Unpack(s[n + 1..]) else []
  }

  /** strlen, stopping at the end of the buffer. */
  function StringLength(s: seq<byte>): (n: nat)
    ensures n <= |s| && 0 !in s[..n] && (n < |s| ==> s[n] == 0)
    ensures s != [] && s[0] != 0 ==> n > 0
  {
    if s == [] || s[0] == 0 then 0
    else
      assert forall m :: 0 <= m <= |s| - 1 ==> s[..m + 1] == [s[0]] + s[1..][..m];
      1 + StringLength(s[1..])
  }

  // ---------- laws of packing ----------

  lemma {:induction false} BodyAppend(x: seq<Str>, y: seq<Str>)
    ensures Body(x + y) == Body(x) + Body(y)
  {
    if x == [] {
      assert x + y == y;
    } else {
      assert (x + y)[1..] == x[1..] + y;
      BodyAppend(x[1..], y);
    }
  }

  lemma BodyOne(e: Str)
    ensures Body([e]) == e + [0]
  {
    assert Body([e]) == e + [0] + Body([]);
  }

  /** The first string of a packed buffer and what follows it. */
  lemma RepTail(s: seq<byte>, es: seq<Str>)
    requires Rep(s, es) && es != []
    ensures |es[0]| + 1 < |s| && s[..|es[0]|] == es[0] && s[|es[0]|] == 0
    ensures Rep(s[|es[0]| + 1..], es[1..])
  {
    var n := |es[0]|;
    var t := s[n + 1..];
    assert Body(es) == es[0] + [0] + Body(es[1..]);
    assert t == Body(es[1..]) + Zeros(|t| - |Body(es[1..])|);
  }

  lemma RepHead(s: seq<byte>, es: seq<Str>)
    requires Rep(s, es)
    ensures s != [] && (s[0] == 0 <==> es == [])
  {
    if es != [] {
      RepTail(s, es);
      assert s[0] == s[..|es[0]|][0] == es[0][0];
      assert es[0][0] in es[0];
    }
  }

  lemma {:induction false} StringEnds(s: seq<byte>, m: nat)
    requires m < |s| && s[m] == 0 && 0 !in s[..m]
    ensures StringLength(s) == m
  {
    if m > 0 {
      assert s[0] in s[..m];
      assert s[..m] == [s[0]] + s[1..][..m - 1];
      StringEnds(s[1..], m - 1);
    }
  }

  /** A well-formed buffer holds one list of entries only, the one Unpack returns. */
  lemma {:induction false} UnpackRep(s: seq<byte>, es: seq<Str>)
    requires Rep(s, es)
    ensures Unpack(s) == es
  {
    RepHead(s, es);
    if es != [] {
      RepTail(s, es);
      var n, m := StringLength(s), |es[0]|;
      assert IsEntry(es[0]);
      StringEnds(s, m);
      UnpackRep(s[m + 1..], es[1..]);
    }
  }

  // ---------- laws of the list ----------

  lemma {:induction false} FindConcat(x: seq<Str>, y: seq<Str>, key: Str)
    ensures Find(x + y, key) == if Find(x, key) < |x| then Find(x, key) else |x| + Find(y, key)
  {
    if x == [] {
      assert x + y == y;
    } else {
      assert (x + y)[1..] == x[1..] + y;
      FindConcat(x[1..], y, key);
    }
  }

  lemma SkipEntry(x: seq<Str>, e: Str, y: seq<Str>, key: Str)
    requires !Assigns(e, key)
    ensures Lookup(x + ([e] + y), key) == Lookup(x + y, key)
  {
    FindConcat(x, y, key);
    FindConcat(x, [e] + y, key);
    FindConcat([e], y, key);
  }

  /** With unique names a deleted key is gone, and no other key notices. */
  lemma DeleteLookup(es: seq<Str>, key: Str, other: Str)
    requires UniqueNames(es) && EQUALS !in key && EQUALS !in other
    ensures Lookup(Delete(es, key), other) == if other == key then None else Lookup(es, other)
  {
    var i := Find(es, key);
    if i < |es| {
      var x, y := es[..i], es[i + 1..];
      assert es == x + ([es[i]] + y);
      AssignsName(es[i], key);
      AssignsName(es[i], other);
      if other == key {
        DeleteAll(es, key);
      } else {
        SkipEntry(x, es[i], y, other);
      }
    }
  }

  lemma DeleteAll(es: seq<Str>, key: Str)
    requires UniqueNames(es) && EQUALS !in key
    ensures Lookup(Delete(es, key), key) == None
  {
    DeleteUnique(es, key);
    var d := Delete(es, key);
    var i := Find(d, key);
    if i < |d| { AssignsName(d[i], key); }
  }

  lemma DeleteUnique(es: seq<Str>, key: Str)
    requires UniqueNames(es)
    ensures UniqueNames(Delete(es, key)) && (AreEntries(es) ==> AreEntries(Delete(es, key)))
    ensures EQUALS !in key ==>
      forall i :: 0 <= i < |Delete(es, key)| ==> HasName(Delete(es, key)[i]) && NameOf(Delete(es, key)[i]) != key
  {
    var n := Find(es, key);
    var d := Delete(es, key);
    forall i | 0 <= i < |d|
      ensures d[i] == es[if i < n then i else i + 1]
    {}
    if EQUALS !in key {
      forall i | 0 <= i < |d|
        ensures NameOf(d[i]) != key
      {
        var k := if i < n then i else i + 1;
        AssignsName(es[k], key);
        if n < |es| { AssignsName(es[n], key); }
      }
    }
  }

  /** Adding an entry keeps names unique and changes exactly the value of its name. */
  lemma PutUnique(es: seq<Str>, entry: Str)
    requires UniqueNames(es) && AreEntries(es) && HasName(entry) && IsString(entry)
    ensures UniqueNames(Put(es, entry)) && AreEntries(Put(es, entry))
  {
    hide UniqueNames, AreEntries, NameOf, Delete;
    DeleteUnique(es, NameOf(entry));
    AppendUnique(Delete(es, NameOf(entry)), entry);
  }

  lemma AppendUnique(es: seq<Str>, entry: Str)
    requires UniqueNames(es) && HasName(entry) && IsString(entry)
    requires forall i :: 0 <= i < |es| ==> HasName(es[i]) && NameOf(es[i]) != NameOf(entry)
    ensures UniqueNames(es + [entry]) && (AreEntries(es) ==> AreEntries(es + [entry]))
  {
    hide NameOf;
  }

  lemma PutLookup(es: seq<Str>, entry: Str, key: Str)
    requires UniqueNames(es) && HasName(entry) && EQUALS !in key
    ensures Lookup(Put(es, entry), key) == if key == NameOf(entry) then Some(entry) else Lookup(es, key)
  {
    var d := Delete(es, NameOf(entry));
    DeleteLookup(es, NameOf(entry), key);
    FindConcat(d, [entry], key);
    AssignsName(entry, key);
  }

  /** A key is found exactly when some entry has that name. */
  lemma LookupFinds(es: seq<Str>, key: Str)
    requires EQUALS !in key
    ensures Lookup(es, key).Some? <==> exists i :: 0 <= i < |es| && HasName(es[i]) && NameOf(es[i]) == key
  {
    forall i | 0 <= i < |es|
      ensures Assigns(es[i], key) <==> HasName(es[i]) && NameOf(es[i]) == key
    {
      AssignsName(es[i], key);
    }
  }

  // ---------- the laws spelled out on bytes ----------

  lemma AssignsPrefix(e: Str, key: Str)
    ensures Assigns(e, key) <==> key + [EQUALS] <= e
  {
    if Assigns(e, key) { assert e[..|key| + 1] == key + [EQUALS]; }
    if key + [EQUALS] <= e {
      assert e[|key|] == (key + [EQUALS])[|key|];
      assert e[..|key|] == (key + [EQUALS])[..|key|] == key;
    }
  }

  lemma SameName(e: Str, f: Str, key: Str)
    requires key + [EQUALS] <= e && key + [EQUALS] <= f
    ensures HasName(e) && HasName(f) && NameOf(e) == NameOf(f)
  {
    AssignsPrefix(e, key);
    AssignsPrefix(f, key);
    assert e[|key|] in e;
    var n := |NameOf(e)|;
    assert e[..|key| + 1] == f[..|key| + 1] == key + [EQUALS];
    assert f[n] == f[..|key| + 1][n] == e[n];
    assert f[..n] == f[..|key| + 1][..n] == e[..n];
    NameIs(f, n);
  }

  /** With unique names a key has the value `e` exactly when `e` is in the list and starts
      with the key and an equals sign. */
  lemma LookupExactly(es: seq<Str>, key: Str, e: Str)
    requires UniqueNames(es)
    ensures Lookup(es, key) == Some(e) <==> e in es && key + [EQUALS] <= e
  {
    var n := Find(es, key);
    if n < |es| { AssignsPrefix(es[n], key); }
    if e in es && key + [EQUALS] <= e {
      var i :| 0 <= i < |es| && es[i] == e;
      AssignsPrefix(e, key);
      SameName(es[n], e, key);
    }
  }

  /** Deleting any key, one with an equals sign inside as well, takes the value from exactly
      those names whose entry starts with that key and an equals sign. */
  lemma DeleteLookupAny(es: seq<Str>, key: Str, other: Str)
    requires UniqueNames(es)
    ensures UniqueNames(Delete(es, key))
    ensures forall e :: Lookup(Delete(es, key), other) == Some(e) <==> Lookup(es, other) == Some(e) && !(key + [EQUALS] <= e)
  {
    DeleteUnique(es, key);
    forall e
      ensures Lookup(Delete(es, key), other) == Some(e) <==> Lookup(es, other) == Some(e) && !(key + [EQUALS] <= e)
    {
      LookupExactly(es, other, e);
      LookupExactly(Delete(es, key), other, e);
      DeleteKeepsExactly(es, key, e);
    }
  }

  lemma DeleteKeepsExactly(es: seq<Str>, key: Str, e: Str)
    requires UniqueNames(es)
    ensures e in Delete(es, key) <==> e in es && !(key + [EQUALS] <= e)
  {
    var n := Find(es, key);
    var d := Delete(es, key);
    AssignsPrefix(e, key);
    if n < |es| {
      OnlyNamesake(es, n, key);
      assert es == es[..n] + [es[n]] + es[n + 1..];
    }
    hide Assigns, NameOf, UniqueNames;
  }

  /** No other entry has the name of entry `n`. */
  lemma OnlyNamesake(es: seq<Str>, n: nat, key: Str)
    requires UniqueNames(es) && n < |es| && Assigns(es[n], key)
    ensures key + [EQUALS] <= es[n]
    ensures forall i :: 0 <= i < |es| && i != n ==> !(key + [EQUALS] <= es[i])
  {
    AssignsPrefix(es[n], key);
    forall i | 0 <= i < |es| && key + [EQUALS] <= es[i]
      ensures i == n
    {
      SameName(es[n], es[i], key);
    }
  }

  /** Deleting takes out the first entry that starts with the key and an equals sign, and
      nothing if there is none. */
  lemma DeleteFirst(es: seq<Str>, key: Str)
    ensures forall i :: 0 <= i < |es| && key + [EQUALS] <= es[i] && (forall j :: 0 <= j < i ==> !(key + [EQUALS] <= es[j])) ==>
      Delete(es, key) == es[..i] + es[i + 1..] && Lookup(es, key) == Some(es[i])
    ensures (forall i :: 0 <= i < |es| ==> !(key + [EQUALS] <= es[i])) ==> Delete(es, key) == es && Lookup(es, key) == None
  {
    forall i | 0 <= i < |es|
      ensures Assigns(es[i], key) <==> key + [EQUALS] <= es[i]
    {
      AssignsPrefix(es[i], key);
    }
    hide Assigns;
  }

  /** Adding appends the entry, and takes out the first entry of its name if there is one. */
  lemma PutLast(es: seq<Str>, entry: Str)
    requires HasName(entry)
    ensures forall i :: 0 <= i < |es| && NameOf(entry) + [EQUALS] <= es[i] && (forall j :: 0 <= j < i ==> !(NameOf(entry) + [EQUALS] <= es[j])) ==>
      Put(es, entry) == es[..i] + es[i + 1..] + [entry]
    ensures (forall i :: 0 <= i < |es| ==> !(NameOf(entry) + [EQUALS] <= es[i])) ==> Put(es, entry) == es + [entry]
  {
    DeleteFirst(es, NameOf(entry));
    hide Delete;
  }
}
