/** What one run of main_env.c does to the value of a name, for every list of options. */
module RunEffect {
  import opened Basics

  import opened Checksum
  import opened EnvFormat
  import opened EnvFuncs
  import opened MainEnv

  // ---------- one value through the edits ----------

  /** The last line that assigns to `key`. */
  function LastLine(lines: seq<Str>, key: Str): Option<Str> {
    if lines == [] then None
    else if key + [EQUALS] <= lines[|lines| - 1] then Some(lines[|lines| - 1])
    else LastLine(lines[..|lines| - 1], key)
  }

  lemma {:induction false} LastLineIs(lines: seq<Str>, key: Str, i: nat)
    requires i < |lines| && key + [EQUALS] <= lines[i]
    requires forall j :: i < j < |lines| ==> !(key + [EQUALS] <= lines[j])
    ensures LastLine(lines, key) == Some(lines[i])
    decreases |lines|
  {
    if i < |lines| - 1 { LastLineIs(lines[..|lines| - 1], key, i); }
  }

  lemma {:induction false} NoLine(lines: seq<Str>, key: Str)
    requires forall j :: 0 <= j < |lines| ==> !(key + [EQUALS] <= lines[j])
    ensures LastLine(lines, key) == None
    decreases |lines|
  {
    if lines != [] { NoLine(lines[..|lines| - 1], key); }
  }

  lemma {:induction false} LastLineFound(lines: seq<Str>, key: Str)
    ensures LastLine(lines, key).Some? ==> key + [EQUALS] <= LastLine(lines, key).value
    decreases |lines|
  {
    if lines != [] { LastLineFound(lines[..|lines| - 1], key); }
  }

  lemma {:induction false} LastLineFront(lines: seq<Str>, key: Str)
    requires lines != []
    ensures LastLine(lines, key) ==
      if LastLine(lines[1..], key).Some? then LastLine(lines[1..], key)
      else if key + [EQUALS] <= lines[0] then Some(lines[0]) else None
    decreases |lines|
  {
    var n := |lines| - 1;
    if n > 0 {
      assert lines[1..][..n - 1] == lines[..n][1..];
      LastLineFront(lines[..n], key);
    }
  }

  lemma PutUniqueNames(es: seq<Str>, entry: Str)
    requires UniqueNames(es) && HasName(entry)
    ensures UniqueNames(Put(es, entry))
  {
    DeleteUnique(es, NameOf(entry));
    hide NameOf, Delete;
  }

  lemma PutValue(es: seq<Str>, entry: Str, key: Str)
    requires UniqueNames(es) && HasName(entry) && EQUALS !in key
    ensures UniqueNames(Put(es, entry))
    ensures Lookup(Put(es, entry), key) == if key + [EQUALS] <= entry then Some(entry) else Lookup(es, key)
  {
    hide *;
    PutUniqueNames(es, entry);
    PutLookup(es, entry, key);
    AssignsName(entry, key);
    AssignsPrefix(entry, key);
  }

  /** After adding lines one by one a name has the value of the last line that assigns to it. */
  lemma {:induction false} AddAllValue(es: seq<Str>, lines: seq<Str>, key: Str)
    requires UniqueNames(es) && AddAll(es, lines).Some? && EQUALS !in key
    ensures var r := AddAll(es, lines).value;
      UniqueNames(r)
      && Lookup(r, key) == if LastLine(lines, key).Some? then LastLine(lines, key) else Lookup(es, key)
    decreases |lines|
  {
    hide UniqueNames, HasName, Put, Lookup, LastLine;
    if lines != [] {
      PutValue(es, lines[0], key);
      AddAllValue(Put(es, lines[0]), lines[1..], key);
      LastLineFront(lines, key);
    } else {
      NoLine(lines, key);
    }
  }

  /** Adding lines one by one succeeds exactly when each has an equals sign. */
  lemma {:induction false} AddAllExactly(es: seq<Str>, lines: seq<Str>)
    ensures AddAll(es, lines).Some? <==> forall i :: 0 <= i < |lines| ==> EQUALS in lines[i]
    decreases |lines|
  {
    if lines != [] {
      AddAllExactly(if HasName(lines[0]) then Put(es, lines[0]) else es, lines[1..]);
      hide Put;
      assert forall i :: 1 <= i < |lines| ==> lines[i] == lines[1..][i - 1];
    }
  }

  /** One of the erase keys and an equals sign start the entry. */
  predicate Hit(keys: seq<Str>, e: Str) {
    exists i :: 0 <= i < |keys| && keys[i] + [EQUALS] <= e
  }

  lemma HitFirst(keys: seq<Str>, e: Str)
    requires keys != []
    ensures Hit(keys, e) <==> keys[0] + [EQUALS] <= e || Hit(keys[1..], e)
  {
    assert forall i :: 1 <= i < |keys| ==> keys[i] == keys[1..][i - 1];
  }

  lemma {:induction false} DeleteEachValue(es: seq<Str>, keys: seq<Str>, key: Str, e: Str)
    requires UniqueNames(es)
    ensures UniqueNames(DeleteEach(es, keys))
    ensures Lookup(DeleteEach(es, keys), key) == Some(e) <==> Lookup(es, key) == Some(e) && !Hit(keys, e)
    decreases |keys|
  {
    hide UniqueNames, Delete, Lookup, Hit;
    if keys != [] {
      DeleteLookupAny(es, keys[0], key);
      DeleteEachValue(Delete(es, keys[0]), keys[1..], key, e);
      HitFirst(keys, e);
    } else {
      NoHit(e);
    }
  }

  lemma NoHit(e: Str)
    ensures !Hit([], e)
  {}

  // ---------- whole runs ----------

  lemma StoredIs(prodInfo: bool, img: Image, opts: Options)
    requires opts.clean || Sound(img)
    requires Runnable(prodInfo, img, opts) && Decide(prodInfo, img, opts).Stored?
    ensures UniqueNames(Start(img, opts)) && Start(img, opts) == if opts.clean then [] else Unpack(img.data)
    ensures Edit(Start(img, opts), opts) == Some(Unpack(After(prodInfo, img, opts).data))
  {
    hide Crc, Seal, Body, UniqueNames, AreEntries, Edit, Fits, CrcOk, IsEmptyData;
    NothingUnique();
    EditKeeps(Start(img, opts), opts, |img.data|);
    SealSound(Decide(prodInfo, img, opts).es, |img.data|);
  }

  function LinesOf(f: AddFile): seq<Str> {
    if f.Content? then Lines(f.bytes) else []
  }

  lemma FileValue(es: seq<Str>, f: AddFile, key: Str)
    requires UniqueNames(es) && AddFromFile(es, f).Some? && EQUALS !in key
    ensures var r := AddFromFile(es, f).value;
      UniqueNames(r)
      && Lookup(r, key) == if LastLine(LinesOf(f), key).Some? then LastLine(LinesOf(f), key) else Lookup(es, key)
  {
    hide UniqueNames, AddAll, Lines, Lookup;
    if f.Content? { AddAllValue(es, Lines(f.bytes), key); }
  }

  function KeysOf(eraselist: Option<seq<Str>>): seq<Str> {
    if eraselist.Some? then eraselist.value else []
  }

  lemma EraseValue(es: seq<Str>, eraselist: Option<seq<Str>>, key: Str)
    requires UniqueNames(es)
    ensures UniqueNames(EraseListed(es, eraselist))
    ensures Lookup(EraseListed(es, eraselist), key) ==
      if Lookup(es, key).Some? && Hit(KeysOf(eraselist), Lookup(es, key).value) then None else Lookup(es, key)
  {
    hide UniqueNames, DeleteEach, Lookup, Hit;
    forall e
      ensures Lookup(EraseListed(es, eraselist), key) == Some(e) <==> Lookup(es, key) == Some(e) && !Hit(KeysOf(eraselist), e)
    {
      if eraselist.Some? { DeleteEachValue(es, eraselist.value, key, e); } else { NoHit(e); }
    }
    if eraselist.Some? { DeleteEachValue(es, eraselist.value, key, []); }
    var v := Lookup(EraseListed(es, eraselist), key);
    if v.Some? { assert v == Some(v.value); }
  }

  lemma SetValue(es: seq<Str>, setstring: Option<Str>, key: Str)
    requires UniqueNames(es) && SetOne(es, setstring).Some? && EQUALS !in key
    ensures Lookup(SetOne(es, setstring).value, key) ==
      if setstring.Some? && key + [EQUALS] <= setstring.value then setstring else Lookup(es, key)
  {
    hide UniqueNames, Put, Lookup, HasName;
    if setstring.Some? { PutValue(es, setstring.value, key); }
  }

  lemma EditIs(es: seq<Str>, opts: Options)
    requires Edit(es, opts).Some?
    ensures AddFromFile(es, opts.fileadd).Some?
    ensures SetOne(EraseListed(AddFromFile(es, opts.fileadd).value, opts.eraselist), opts.setstring) == Edit(es, opts)
  {
    hide AddFromFile, SetOne, EraseListed;
  }

  lemma EditValue(es: seq<Str>, opts: Options, key: Str)
    requires UniqueNames(es) && Edit(es, opts).Some? && EQUALS !in key
    ensures var base := if LastLine(LinesOf(opts.fileadd), key).Some? then LastLine(LinesOf(opts.fileadd), key) else Lookup(es, key);
      Lookup(Edit(es, opts).value, key) ==
        if opts.setstring.Some? && key + [EQUALS] <= opts.setstring.value then opts.setstring
        else if base.Some? && Hit(KeysOf(opts.eraselist), base.value) then None
        else base
  {
    hide *;
    EditIs(es, opts);
    FileValue(es, opts.fileadd, key);
    var es1 := AddFromFile(es, opts.fileadd).value;
    EraseValue(es1, opts.eraselist, key);
    SetValue(EraseListed(es1, opts.eraselist), opts.setstring, key);
  }

  /** What a successful run stores for a name: the set string if it assigns to the name; else
      the last added line that does, or what the section held unless wiped; but nothing if
      an erase key and an equals sign start that entry. */
  lemma StoredValue(prodInfo: bool, img: Image, opts: Options, key: Str)
    requires opts.clean || Sound(img)
    requires Runnable(prodInfo, img, opts) && Decide(prodInfo, img, opts).Stored? && EQUALS !in key
    ensures var v := Lookup(Unpack(After(prodInfo, img, opts).data), key);
      var lines := if opts.fileadd.Content? then Lines(opts.fileadd.bytes) else [];
      var keys := if opts.eraselist.Some? then opts.eraselist.value else [];
      var old' :=
        if LastLine(lines, key).Some? then LastLine(lines, key)
        else if opts.clean then None
        else Lookup(Unpack(img.data), key);
      v ==
        if opts.setstring.Some? && key + [EQUALS] <= opts.setstring.value then opts.setstring
        else if old'.Some? && exists i :: 0 <= i < |keys| && keys[i] + [EQUALS] <= old'.value then None
        else old'
  {
    hide *;
    StoredIs(prodInfo, img, opts);
    var es := Start(img, opts);
    EditValue(es, opts, key);
    StoredWords(es, opts, key);
    var lines, keys := LinesOf(opts.fileadd), KeysOf(opts.eraselist);
    LastLineFound(lines, key);
    var base := if LastLine(lines, key).Some? then LastLine(lines, key) else Lookup(es, key);
    if base.Some? { HitMeans(keys, key, base.value); }
  }

  /** The helper names of EditValue unfolded. */
  lemma StoredWords(es: seq<Str>, opts: Options, key: Str)
    ensures LinesOf(opts.fileadd) == if opts.fileadd.Content? then Lines(opts.fileadd.bytes) else []
    ensures KeysOf(opts.eraselist) == if opts.eraselist.Some? then opts.eraselist.value else []
    ensures es == [] ==> Lookup(es, key) == None
    ensures Lookup(es, key).Some? ==> key + [EQUALS] <= Lookup(es, key).value
  {
    hide Lines;
    if Find(es, key) < |es| { AssignsPrefix(es[Find(es, key)], key); }
  }

  lemma HitMeans(keys: seq<Str>, key: Str, e: Str)
    ensures Hit(keys, e) <==> exists i :: 0 <= i < |keys| && keys[i] + [EQUALS] <= e
    ensures key in keys && key + [EQUALS] <= e ==> Hit(keys, e)
  {}

  /** For one, a name in the erase list is gone unless it is set again. */
  lemma ErasedGone(prodInfo: bool, img: Image, opts: Options, key: Str)
    requires opts.clean || Sound(img)
    requires Runnable(prodInfo, img, opts) && Decide(prodInfo, img, opts).Stored? && EQUALS !in key
    requires opts.eraselist.Some? && key in opts.eraselist.value
    requires opts.setstring.Some? ==> !(key + [EQUALS] <= opts.setstring.value)
    ensures Lookup(Unpack(After(prodInfo, img, opts).data), key) == None
  {
    hide *;
    StoredIs(prodInfo, img, opts);
    var es := Start(img, opts);
    EditValue(es, opts, key);
    StoredWords(es, opts, key);
    var lines, keys := LinesOf(opts.fileadd), KeysOf(opts.eraselist);
    LastLineFound(lines, key);
    var base := if LastLine(lines, key).Some? then LastLine(lines, key) else Lookup(es, key);
    if base.Some? { HitMeans(keys, key, base.value); }
  }

  /** When a run succeeds: not with clean and an erase list together; not if it would change
      product info that is valid and not empty; not on a wrong checksum unless it wipes; and
      every string it adds must have an equals sign. It stores something exactly if it has
      anything to change; otherwise the section stays. */
  lemma SucceedsExactly(prodInfo: bool, img: Image, opts: Options)
    ensures var changes := opts.clean || opts.fileadd != NoFile || opts.eraselist.Some? || opts.setstring.Some?;
      var valid := img.crc == Crc(0, img.data);
      var empty := |img.data| > 1 && img.data[0] == 0 && img.data[1] == 0;
      && (Decide(prodInfo, img, opts) != Refused <==>
            (&& !(opts.clean && opts.eraselist.Some?)
             && !(prodInfo && valid && !empty && changes)
             && (valid || opts.clean)
             && opts.fileadd != Unreadable
             && (opts.fileadd.Content? ==> forall i :: 0 <= i < |Lines(opts.fileadd.bytes)| ==> EQUALS in Lines(opts.fileadd.bytes)[i])
             && (opts.setstring.Some? ==> EQUALS in opts.setstring.value)))
      && (Decide(prodInfo, img, opts).Stored? <==> Decide(prodInfo, img, opts) != Refused && changes)
      && (!Decide(prodInfo, img, opts).Stored? ==> After(prodInfo, img, opts) == img)
  {
    hide Crc, Unpack, Lines, AddAll, DeleteEach, Put, Seal, Body;
    if opts.fileadd.Content? { AddAllExactly(Start(img, opts), Lines(opts.fileadd.bytes)); }
  }
}
