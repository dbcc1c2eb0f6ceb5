/** main_env.c: one command-line run of ubootenv / prodinfoenv, and whole sequences of runs.

    The section that the NVRAM library stores for one environment is a checksum and a data
    area (`Image`). */
module MainEnv {
  import opened Basics

  import opened Checksum
  import opened EnvFormat
  import opened EnvFuncs

  const NEWLINE: byte := 10
  const LINE_MAX: nat := 308     // sizeof(line) - 1 = 50 + 256 + 3 - 1

  datatype Image = Image(crc: bv32, data: seq<byte>)

  datatype AddFile = NoFile | Unreadable | Content(bytes: seq<byte>)

  /** The options of one run; the erase list is already cut at blanks. */
  datatype Options = Options(clean: bool, fileadd: AddFile, eraselist: Option<seq<Str>>, setstring: Option<Str>)

  // ---------- reading variables from a file ----------

  /** How many bytes the next fgets takes: up to a newline, at most LINE_MAX. */
  function FgetsLength(s: seq<byte>, room: nat): (n: nat)
    ensures n <= |s| && n <= room && (s != [] && room > 0 ==> n > 0)
  {
    if s == [] || room == 0 then 0
    else if s[0] == NEWLINE then 1
    else 1 + FgetsLength(s[1..], room - 1)
  }

  function Chomp(line: Str): Str {
    if line != [] && line[|line| - 1] == NEWLINE then line[..|line| - 1] else line
  }

  /** The strings env_add_vars_from_file hands to env_add_var. */
  function Lines(s: seq<byte>): seq<Str> {
    if s == [] then [] else
    var n := FgetsLength(s, LINE_MAX);
    [Chomp(s[..n])] + Lines(s[n..])
  }

  // ---------- what a run is for ----------

  /** Adding lines one by one; a line without '=' stops the run. */
  function AddAll(es: seq<Str>, lines: seq<Str>): Option<seq<Str>>
    decreases |lines|
  {
    if lines == [] then Some(es)
    else if HasName(lines[0]) then AddAll(Put(es, lines[0]), lines[1..])
    else None
  }

  function DeleteEach(es: seq<Str>, keys: seq<Str>): seq<Str>
    decreases |keys|
  {
    if keys == [] then es else DeleteEach(Delete(es, keys[0]), keys[1..])
  }

  function AddFromFile(es: seq<Str>, f: AddFile): Option<seq<Str>> {
    match f
    case NoFile => Some(es)
    case Unreadable => None
    case Content(bytes) => AddAll(es, Lines(bytes))
  }

  function SetOne(es: seq<Str>, entry: Option<Str>): Option<seq<Str>> {
    match entry
    case None => Some(es)
    case Some(e) => if HasName(e) then Some(Put(es, e)) else None
  }

  function EraseListed(es: seq<Str>, keys: Option<seq<Str>>): seq<Str> {
    match keys
    case None => es
    case Some(ks) => DeleteEach(es, ks)
  }

  /** File, then erase list, then set: the order of main. */
  function Edit(es: seq<Str>, opts: Options): Option<seq<Str>> {
    match AddFromFile(es, opts.fileadd)
    case None => None
    case Some(es1) => SetOne(EraseListed(es1, opts.eraselist), opts.setstring)
  }

  predicate Changes(opts: Options) {
    opts.clean || opts.fileadd != NoFile || opts.eraselist.Some? || opts.setstring.Some?
  }

  predicate CrcOk(img: Image) {
    img.crc == Crc(0, img.data)
  }

  /** env_is_empty. */
  predicate IsEmptyData(data: seq<byte>) {
    |data| > 1 && data[0] == 0 && data[1] == 0
  }

  predicate Locked(prodInfo: bool, img: Image) {
    prodInfo && CrcOk(img) && !IsEmptyData(img.data)
  }

  /** The stored image of a list of entries. */
  function Seal(es: seq<Str>, size: nat): Image
    requires |Body(es)| <= size
  {
    var data := Body(es) + Zeros(size - |Body(es)|);
    Image(Crc(0, data), data)
  }

  datatype Outcome = Refused | Unchanged | Stored(es: seq<Str>)

  /** The run gets as far as editing: no contradicting options, not locked, and a valid
      checksum unless everything is wiped anyway. */
  predicate Reaches(prodInfo: bool, img: Image, opts: Options) {
    && !(opts.clean && opts.eraselist.Some?)
    && !(Locked(prodInfo, img) && Changes(opts))
    && (opts.clean || CrcOk(img))
  }

  /** The entries a run starts from. */
  function Start(img: Image, opts: Options): seq<Str> {
    if opts.clean then [] else Unpack(img.data)
  }

  /** The decision sequence of main. */
  function Decide(prodInfo: bool, img: Image, opts: Options): Outcome {
    if !Reaches(prodInfo, img, opts) then Refused
    else
      match Edit(Start(img, opts), opts)
      case None => Refused
      case Some(es) => if Changes(opts) then Stored(es) else Unchanged
  }

  // ---------- what a run demands ----------

  predicate CanAddAll(es: seq<Str>, lines: seq<Str>, size: nat)
    decreases |lines|
  {
    lines == [] || (CanAdd(es, lines[0], size) && (HasName(lines[0]) ==> CanAddAll(Put(es, lines[0]), lines[1..], size)))
  }

  predicate IsKey(key: Str) {
    IsString(key) && |key| < ENV_MAX_VAR_NAME_LEN
  }

  /** Every entry the run adds fits, and every name is shorter than 50. */
  predicate Fits(es: seq<Str>, opts: Options, size: nat) {
    && (opts.fileadd.Content? ==> CanAddAll(es, Lines(opts.fileadd.bytes), size))
    && (opts.eraselist.Some? ==> forall i :: 0 <= i < |opts.eraselist.value| ==> IsKey(opts.eraselist.value[i]))
    && (opts.setstring.Some? && AddFromFile(es, opts.fileadd).Some? ==>
          CanAdd(EraseListed(AddFromFile(es, opts.fileadd).value, opts.eraselist), opts.setstring.value, size))
  }

  /** What main demands of the stored section: where it trusts the checksum, the data must
      be a packed environment. */
  predicate Runnable(prodInfo: bool, img: Image, opts: Options) {
    && 2 <= |img.data|
    && (CrcOk(img) ==> WellFormed(img.data))
    && (Reaches(prodInfo, img, opts) ==> Fits(Start(img, opts), opts, |img.data|))
  }

  // ---------- the run ----------

  /** env_is_empty, by way of get_end_mark. */
  method EnvIsEmpty(data: array<byte>) returns (empty: bool)
    requires 2 <= data.Length && WellFormed(data[..])
    ensures empty <==> IsEmptyData(data[..])
  {
    ghost var rs := Unpack(data[..]);
    assert data[0..] == data[..];
    var end := GetEndMark(data, 0, rs);
    empty := end == Some(1);
    EmptyMeansNone(data[..], rs);
  }

  lemma EmptyMeansNone(s: seq<byte>, rs: seq<Str>)
    requires 2 <= |s| && Rep(s, rs)
    ensures IsEmptyData(s) <==> rs == []
    ensures rs != [] ==> |Body(rs)| > 1
  {
    RepHead(s, rs);
    EndOf(s, rs);
  }

  /** fgets and the removal of the newline. */
  method ReadLine(bytes: seq<byte>, pos: nat) returns (line: Str, next: nat)
    requires pos < |bytes|
    ensures var n := FgetsLength(bytes[pos..], LINE_MAX);
      next == pos + n && line == Chomp(bytes[pos..][..n])
    // up to 308 bytes without a newline; a newline behind less than 308 of them is skipped
    ensures pos + |line| <= next <= |bytes| && line == bytes[pos..pos + |line|] && NEWLINE !in line && |line| <= 308
    ensures if next == pos + |line| then |line| == 308 || next == |bytes|
      else next == pos + |line| + 1 && bytes[next - 1] == NEWLINE && |line| < 308
  {
    hide FgetsLength;
    var n := 0;
    while pos + n < |bytes| && n < LINE_MAX && (n == 0 || bytes[pos + n - 1] != NEWLINE)
      invariant pos + n <= |bytes| && n <= LINE_MAX
      invariant FgetsLength(bytes[pos..], LINE_MAX) ==
        n + if n > 0 && bytes[pos + n - 1] == NEWLINE then 0 else FgetsLength(bytes[pos + n..], LINE_MAX - n)
      invariant forall k :: pos <= k < pos + n - 1 ==> bytes[k] != NEWLINE
    {
      FgetsStep(bytes, pos + n, LINE_MAX - n);
      n := n + 1;
    }
    FgetsEnd(bytes[pos + n..], LINE_MAX - n);
    next := pos + n;
    line := Chomp(bytes[pos..next]);
    assert bytes[pos..][..n] == bytes[pos..next];
  }

  lemma FgetsStep(bytes: seq<byte>, at: nat, room: nat)
    requires at < |bytes| && room > 0
    ensures FgetsLength(bytes[at..], room) == 1 + if bytes[at] == NEWLINE then 0 else FgetsLength(bytes[at + 1..], room - 1)
  {
    assert bytes[at..][1..] == bytes[at + 1..];
  }

  lemma FgetsEnd(s: seq<byte>, room: nat)
    ensures s == [] || room == 0 ==> FgetsLength(s, room) == 0
  {}

  /** env_add_var; names that U-Boot redirects to NVRAM are not modelled. */
  method EnvAddVar(buf: array<byte>, varString: Str, ghost rs: seq<Str>) returns (ok: bool)
    requires 2 <= buf.Length && Rep(buf[..], rs) && CanAdd(rs, varString, buf.Length)
    modifies buf
    ensures ok <==> HasName(varString)
    ensures ok ==> Rep(buf[..], Put(rs, varString))
  {
    hide *;
    var name := GetVarName(varString);
    if name == None { return false; }
    ok := AddVar(buf, varString, rs);
  }

  /** env_add_vars_from_file. */
  method AddVarsFromFile(buf: array<byte>, bytes: seq<byte>, ghost rs: seq<Str>) returns (ok: bool)
    requires 2 <= buf.Length && Rep(buf[..], rs) && CanAddAll(rs, Lines(bytes), buf.Length)
    modifies buf
    ensures ok <==> AddAll(rs, Lines(bytes)).Some?
    ensures ok ==> Rep(buf[..], AddAll(rs, Lines(bytes)).value)
    // a file of one line is added whole, newline or not
    ensures 0 < |bytes| <= 308 && NEWLINE !in bytes ==>
      (ok <==> EQUALS in bytes) && (ok ==> Rep(buf[..], Put(rs, bytes)))
  {
    hide *;
    OneLine(bytes, rs);
    var pos: nat := 0;
    ghost var es := rs;
    assert bytes[0..] == bytes;
    while pos < |bytes|
      invariant pos <= |bytes|
      invariant Rep(buf[..], es) && CanAddAll(es, Lines(bytes[pos..]), buf.Length)
      invariant AddAll(rs, Lines(bytes)) == AddAll(es, Lines(bytes[pos..]))
      decreases |bytes| - pos
    {
      LinesStep(bytes, pos, es, buf.Length);
      var line, next := ReadLine(bytes, pos);
      var added := EnvAddVar(buf, line, es);
      if !added { return false; }
      pos := next;
      es := Put(es, line);
    }
    NoMoreLines(bytes[pos..], es);
    ok := true;
  }

  lemma OneLine(bytes: seq<byte>, rs: seq<Str>)
    ensures 0 < |bytes| <= 308 && NEWLINE !in bytes ==>
      AddAll(rs, Lines(bytes)) == if EQUALS in bytes then Some(Put(rs, bytes)) else None
  {
    if 0 < |bytes| <= 308 && NEWLINE !in bytes { LinesFirst(bytes, []); }
    hide Lines, Put;
  }

  lemma LinesStep(bytes: seq<byte>, pos: nat, es: seq<Str>, size: nat)
    requires pos < |bytes| && CanAddAll(es, Lines(bytes[pos..]), size)
    ensures var n := FgetsLength(bytes[pos..], LINE_MAX); var line := Chomp(bytes[pos..][..n]);
      && 0 < n && pos + n <= |bytes|
      && CanAdd(es, line, size)
      && (HasName(line) ==> CanAddAll(Put(es, line), Lines(bytes[pos + n..]), size))
      && AddAll(es, Lines(bytes[pos..])) == if HasName(line) then AddAll(Put(es, line), Lines(bytes[pos + n..])) else None
  {
    hide Put, CanAdd, FgetsLength, Chomp;
    var n := FgetsLength(bytes[pos..], LINE_MAX);
    FgetsTakes(bytes[pos..]);
    assert bytes[pos..][n..] == bytes[pos + n..];
  }

  lemma FgetsTakes(s: seq<byte>)
    requires s != []
    ensures 0 < FgetsLength(s, LINE_MAX) <= |s|
  {}

  lemma NoMoreLines(s: seq<byte>, es: seq<Str>)
    requires s == []
    ensures AddAll(es, Lines(s)) == Some(es)
  {}

  /** env_remove_varlist; a name that is not there is reported and skipped. */
  method RemoveVarList(buf: array<byte>, names: seq<Str>, ghost rs: seq<Str>)
    requires 0 < buf.Length && Rep(buf[..], rs)
    requires forall i :: 0 <= i < |names| ==> IsKey(names[i])
    modifies buf
    ensures Rep(buf[..], DeleteEach(rs, names))
  {
    var i := 0;
    ghost var es := rs;
    assert names[0..] == names;
    while i < |names|
      invariant i <= |names| && Rep(buf[..], es)
      invariant DeleteEach(rs, names) == DeleteEach(es, names[i..])
    {
      hide Rep, Delete;
      assert buf[0..] == buf[..];
      assert IsKey(names[i]);
      var removed := RemoveVar(buf, 0, names[i], es);
      assert buf[0..] == buf[..];
      assert names[i..][1..] == names[i + 1..];
      es := Delete(es, names[i]);
      i := i + 1;
    }
  }

  /** The edits of main, in its order. */
  method EditBuffer(env: array<byte>, opts: Options, ghost es: seq<Str>) returns (ok: bool)
    requires 2 <= env.Length && Rep(env[..], es) && Fits(es, opts, env.Length)
    modifies env
    ensures ok <==> Edit(es, opts).Some?
    ensures ok ==> Rep(env[..], Edit(es, opts).value)
  {
    hide Rep, Put, DeleteEach, CanAdd, CanAddAll, AddAll, Lines, HasName, IsString;
    match opts.fileadd {
      case NoFile =>
      case Unreadable => return false;
      case Content(bytes) =>
        var added := AddVarsFromFile(env, bytes, es);
        if !added { return false; }
    }
    ghost var es1 := AddFromFile(es, opts.fileadd).value;
    if opts.eraselist.Some? {
      RemoveVarList(env, opts.eraselist.value, es1);
    }
    if opts.setstring.Some? {
      ok := EnvAddVar(env, opts.setstring.value, EraseListed(es1, opts.eraselist));
    } else {
      ok := true;
    }
  }

  lemma SealRep(s: seq<byte>, es: seq<Str>)
    requires Rep(s, es)
    ensures |Body(es)| < |s| && Image(Crc(0, s), s) == Seal(es, |s|)
  {
    hide Crc, Body;
  }

  lemma WipedRep(s: seq<byte>)
    requires s == Zeros(|s|) && s != []
    ensures Rep(s, [])
  {}

  /** The section as the NVRAM library stores it. */
  class Section {
    var crc: bv32
    const data: array<byte>

    ghost function Value(): Image
      reads this, data
    {
      Image(crc, data[..])
    }

    constructor (img: Image)
      ensures Value() == img && fresh(data)
    {
      crc := img.crc;
      data := new byte[|img.data|](i requires 0 <= i < |img.data| => img.data[i]);
    }

    /** env_validate: 0 when the checksum is right. */
    method Validate(env: array<byte>) returns (valid: bool)
      ensures valid <==> CrcOk(Image(crc, env[..]))
    {
      hide Crc;
      var c := Crc32(0, env, 0, env.Length);
      assert env[0..env.Length] == env[..];
      valid := crc == c;
    }

    /** main, from the read of the section to its save. */
    method Run(prodInfo: bool, opts: Options) returns (ok: bool)
      requires Runnable(prodInfo, Value(), opts)
      modifies this, data
      ensures ok <==> Decide(prodInfo, old(Value()), opts) != Refused
      ensures Value() == After(prodInfo, old(Value()), opts)
    {
      hide Crc, Rep, Unpack, Edit, Fits, Seal, IsEmptyData, Body;
      if opts.clean && opts.eraselist.Some? { return false; }
      var env := ReadSection();
      var valid := Validate(env);
      if prodInfo && valid {
        var empty := EnvIsEmpty(env);
        if !empty && Changes(opts) { return false; }
      }
      if opts.clean {
        forall i | 0 <= i < env.Length { env[i] := 0; }
        WipedRep(env[..]);
      } else if !valid {
        return false;
      }
      ghost var es := Start(Value(), opts);
      ok := EditBuffer(env, opts, es);
      if ok && Changes(opts) {
        SealRep(env[..], Edit(es, opts).value);
        Save(env);
      }
    }

    /** NvOSCfgGet into a fresh buffer. */
    method ReadSection() returns (env: array<byte>)
      ensures fresh(env) && env[..] == data[..]
    {
      env := new byte[data.Length];
      forall i | 0 <= i < data.Length { env[i] := data[i]; }
    }

    /** The new checksum and NvOSCfgSet. */
    method Save(env: array<byte>)
      requires env.Length == data.Length && env != data
      modifies this, data
      ensures Value() == Image(Crc(0, env[..]), env[..])
    {
      hide Crc;
      assert env[0..env.Length] == env[..];
      ghost var e := env[..];
      crc := Crc32(0, env, 0, env.Length);
      forall i | 0 <= i < data.Length { data[i] := env[i]; }
      assert env[..] == e && data[..] == e;
    }
  }

  /** The stored image after a run. */
  function After(prodInfo: bool, img: Image, opts: Options): Image {
    match Decide(prodInfo, img, opts)
    case Stored(es) => if |Body(es)| <= |img.data| then Seal(es, |img.data|) else img
    case _ => img
  }

  // ---------- sequences of runs ----------

  function AfterAll(prodInfo: bool, img: Image, runs: seq<Options>): Image
    decreases |runs|
  {
    if runs == [] then img else AfterAll(prodInfo, After(prodInfo, img, runs[0]), runs[1..])
  }

  predicate AllRunnable(prodInfo: bool, img: Image, runs: seq<Options>)
    decreases |runs|
  {
    runs == [] || (Runnable(prodInfo, img, runs[0]) && AllRunnable(prodInfo, After(prodInfo, img, runs[0]), runs[1..]))
  }

  /** Product info is written once: whatever valid, non-empty image is stored, and whatever
      runs follow, it stays. */
  lemma {:induction false} WriteOnce(img: Image, runs: seq<Options>)
    requires CrcOk(img) && !IsEmptyData(img.data)
    ensures AfterAll(true, img, runs) == img
    decreases |runs|
  {
    hide CrcOk, IsEmptyData, Edit, Unpack, Seal, Body;
    if runs != [] {
      LockedRun(img, runs[0]);
      WriteOnce(img, runs[1..]);
    }
  }

  lemma LockedRun(img: Image, opts: Options)
    requires CrcOk(img) && !IsEmptyData(img.data)
    ensures After(true, img, opts) == img
    ensures Changes(opts) ==> Decide(true, img, opts) == Refused
  {
    hide CrcOk, IsEmptyData, Edit, Unpack, Seal, Body;
  }

  /** A valid checksum over a packed environment with unique names and zeros behind it. */
  predicate Sound(img: Image) {
    CrcOk(img) && WellFormed(img.data) && UniqueNames(Unpack(img.data))
  }

  lemma SealSound(es: seq<Str>, size: nat)
    requires AreEntries(es) && UniqueNames(es) && |Body(es)| < size
    ensures Sound(Seal(es, size)) && Unpack(Seal(es, size).data) == es && |Seal(es, size).data| == size
  {
    hide Crc, UniqueNames;
    var img := Seal(es, size);
    assert img.data == Body(es) + Zeros(size - |Body(es)|);
    assert Rep(img.data, es);
    UnpackRep(img.data, es);
  }

  /** Sound images lead to sound images, through every sequence of runs whose entries fit. */
  lemma {:induction false} RunsStaySound(prodInfo: bool, img: Image, runs: seq<Options>)
    requires Sound(img) && AllRunnable(prodInfo, img, runs)
    ensures Sound(AfterAll(prodInfo, img, runs))
    decreases |runs|
  {
    hide Sound, After, Runnable;
    if runs != [] {
      RunStaysSound(prodInfo, img, runs[0]);
      RunsStaySound(prodInfo, After(prodInfo, img, runs[0]), runs[1..]);
    }
  }

  lemma RunStaysSound(prodInfo: bool, img: Image, opts: Options)
    requires Sound(img) && Runnable(prodInfo, img, opts)
    ensures Sound(After(prodInfo, img, opts))
  {
    hide Crc, Seal, Body, UniqueNames, AreEntries, Edit, Fits, CrcOk, IsEmptyData;
    if Decide(prodInfo, img, opts).Stored? {
      var es := Decide(prodInfo, img, opts).es;
      NothingUnique();
      EditKeeps(Start(img, opts), opts, |img.data|);
      SealSound(es, |img.data|);
    }
  }

  /** Even a section that holds garbage is sound after a successful run with --clean. */
  lemma CleanRunSound(prodInfo: bool, img: Image, opts: Options)
    requires opts.clean && Runnable(prodInfo, img, opts) && Decide(prodInfo, img, opts) != Refused
    ensures Sound(After(prodInfo, img, opts))
  {
    hide Crc, Seal, Body, UniqueNames, AreEntries, Edit, Fits, CrcOk, IsEmptyData;
    NothingUnique();
    EditKeeps([], opts, |img.data|);
    SealSound(Decide(prodInfo, img, opts).es, |img.data|);
  }

  lemma NothingUnique()
    ensures UniqueNames([]) && AreEntries([]) && Body([]) == []
  {}

  /** A packed list that a buffer of `size` bytes can hold. */
  predicate Held(es: seq<Str>, size: nat) {
    AreEntries(es) && UniqueNames(es) && |Body(es)| < size
  }

  lemma EditKeeps(es: seq<Str>, opts: Options, size: nat)
    requires Held(es, size) && Fits(es, opts, size) && Edit(es, opts).Some?
    ensures Held(Edit(es, opts).value, size)
  {
    hide Held, CanAdd, CanAddAll, Lines, Put, DeleteEach, AddAll, HasName;
    if opts.fileadd.Content? {
      AddAllKeeps(es, Lines(opts.fileadd.bytes), size);
    }
    var es1 := AddFromFile(es, opts.fileadd).value;
    if opts.eraselist.Some? { DeleteEachKeeps(es1, opts.eraselist.value, size); }
    if opts.setstring.Some? { PutKeeps(EraseListed(es1, opts.eraselist), opts.setstring.value, size); }
  }

  lemma PutKeeps(es: seq<Str>, entry: Str, size: nat)
    requires Held(es, size) && CanAdd(es, entry, size) && HasName(entry)
    ensures Held(Put(es, entry), size)
  {
    PutUnique(es, entry);
    hide Put, UniqueNames, AreEntries, Body;
  }

  lemma {:induction false} AddAllKeeps(es: seq<Str>, lines: seq<Str>, size: nat)
    requires Held(es, size) && CanAddAll(es, lines, size) && AddAll(es, lines).Some?
    ensures Held(AddAll(es, lines).value, size)
    decreases |lines|
  {
    hide Held, Put, CanAdd, HasName;
    if lines != [] {
      PutKeeps(es, lines[0], size);
      AddAllKeeps(Put(es, lines[0]), lines[1..], size);
    }
  }

  lemma {:induction false} DeleteEachKeeps(es: seq<Str>, keys: seq<Str>, size: nat)
    requires Held(es, size)
    ensures Held(DeleteEach(es, keys), size)
    decreases |keys|
  {
    hide Held, Delete;
    if keys != [] {
      DeleteKeeps(es, keys[0], size);
      DeleteEachKeeps(Delete(es, keys[0]), keys[1..], size);
    }
  }

  lemma DeleteKeeps(es: seq<Str>, key: Str, size: nat)
    requires Held(es, size)
    ensures Held(Delete(es, key), size)
  {
    DeleteUnique(es, key);
    DeleteShrinks(es, key);
    hide UniqueNames, AreEntries, Delete, Body;
  }

  lemma DeleteShrinks(es: seq<Str>, key: Str)
    ensures |Body(Delete(es, key))| <= |Body(es)|
  {
    hide Body, Assigns;
    var i := Find(es, key);
    if i < |es| {
      assert es == es[..i] + ([es[i]] + es[i + 1..]);
      BodyAppend(es[..i], [es[i]] + es[i + 1..]);
      BodyAppend([es[i]], es[i + 1..]);
      BodyAppend(es[..i], es[i + 1..]);
    }
  }

  // ---------- corruption ----------

  /** A stored image damaged inside any window of at most four data bytes is noticed: every
      run that does not wipe it stops without touching it. */
  lemma DamageNoticed(prodInfo: bool, crc: bv32, p: seq<byte>, x: seq<byte>, y: seq<byte>, s: seq<byte>, opts: Options)
    requires CrcOk(Image(crc, p + x + s)) && |x| == |y| <= 4 && x != y
    ensures !CrcOk(Image(crc, p + y + s))
    ensures !opts.clean ==> Decide(prodInfo, Image(crc, p + y + s), opts) == Refused
  {
    hide Crc, Edit, Unpack, IsEmptyData;
    WindowDetected(0, p, x, y, s);
  }

  // ---------- dump and reload ----------

  /** What --dump prints. */
  function DumpOf(es: seq<Str>): seq<byte> {
    if es == [] then [] else es[0] + [NEWLINE] + DumpOf(es[1..])
  }

  /** The dump loop of env_printenv. */
  method Dump(buf: array<byte>, ghost rs: seq<Str>) returns (out: seq<byte>)
    requires 0 < buf.Length && Rep(buf[..], rs)
    ensures out == DumpOf(rs)
  {
    hide *;
    var data: nat := 0;
    ghost var i: nat := 0;
    out := [];
    assert buf[0..] == buf[..] && rs[0..] == rs;
    while true
      invariant data < buf.Length && i <= |rs| && Rep(buf[data..], rs[i..])
      invariant DumpOf(rs) == out + DumpOf(rs[i..])
      decreases |rs| - i
    {
      RepHead(buf[data..], rs[i..]);
      if buf[data] == 0 {
        DumpNothing(rs[i..]);
        break;
      }
      FirstString(buf[data..], rs[i..]);
      var end := SkipString(buf, data);
      assert buf[data..end] == buf[data..][..|rs[i..][0]|];
      DumpFirst(rs, i);
      out := out + buf[data..end] + [NEWLINE];
      var next := GetNextEnvString(buf, data, rs[i..]);
      data := next.value;
      i := i + 1;
    }
  }

  lemma DumpNothing(rs: seq<Str>)
    requires rs == []
    ensures DumpOf(rs) == []
  {}

  lemma DumpFirst(rs: seq<Str>, i: nat)
    requires i < |rs|
    ensures rs[i..][1..] == rs[i + 1..] && rs[i..][0] == rs[i]
    ensures forall out: seq<byte> :: out + DumpOf(rs[i..]) == out + rs[i] + [NEWLINE] + DumpOf(rs[i + 1..])
  {
    forall out: seq<byte>
      ensures out + (rs[i] + [NEWLINE] + DumpOf(rs[i + 1..])) == out + rs[i] + [NEWLINE] + DumpOf(rs[i + 1..])
    {}
  }

  /** Every string is printed in its place, each with a newline behind it. */
  lemma {:induction false} DumpAppend(x: seq<Str>, e: Str, y: seq<Str>)
    ensures DumpOf(x + [e] + y) == DumpOf(x) + e + [10] + DumpOf(y)
  {
    if x == [] {
      assert x + [e] + y == [e] + y && ([e] + y)[1..] == y;
    } else {
      assert (x + [e] + y)[1..] == x[1..] + [e] + y;
      DumpAppend(x[1..], e, y);
    }
  }

  lemma {:induction false} FgetsOfLine(e: Str, rest: seq<byte>, room: nat)
    requires NEWLINE !in e
    ensures FgetsLength(e + [NEWLINE] + rest, room) == if |e| < room then |e| + 1 else room
  {
    var s := e + [NEWLINE] + rest;
    if e != [] && room > 0 {
      assert s[0] == e[0] && e[0] in e;
      assert s[1..] == e[1..] + [NEWLINE] + rest;
      FgetsOfLine(e[1..], rest, room - 1);
    }
  }

  /** An entry below the line limit comes back as one line. */
  lemma LineBack(e: Str, rest: seq<byte>)
    requires NEWLINE !in e && |e| < LINE_MAX
    ensures Lines(e + [NEWLINE] + rest) == [e] + Lines(rest)
  {
    var s := e + [NEWLINE] + rest;
    FgetsOfLine(e, rest, LINE_MAX);
    hide FgetsLength;
    assert s[..|e| + 1] == e + [NEWLINE];
    assert s[|e| + 1..] == rest;
    assert Chomp(e + [NEWLINE]) == e;
  }

  /** Every line is pinned by its first one: up to a newline, or 308 bytes, or the rest. */
  lemma LinesFirst(e: Str, rest: seq<byte>)
    requires NEWLINE !in e
    ensures |e| < 308 ==> Lines(e + [NEWLINE] + rest) == [e] + Lines(rest)
    ensures |e| == 308 ==> Lines(e + rest) == [e] + Lines(rest)
    ensures 0 < |e| <= 308 ==> Lines(e) == [e]
  {
    if |e| < 308 { LineBack(e, rest); }
    if |e| == 308 { FullFirst(e, rest); }
    if 0 < |e| <= 308 {
      FgetsOfRest(e, [], LINE_MAX);
      assert e + [] == e && e[..|e|] == e && e[|e|..] == [];
      ChompNothing(e);
      hide FgetsLength, Chomp;
    }
  }

  lemma FullFirst(e: Str, rest: seq<byte>)
    requires NEWLINE !in e && |e| == 308
    ensures Lines(e + rest) == [e] + Lines(rest)
  {
    FgetsOfRest(e, rest, LINE_MAX);
    ChompNothing(e);
    hide FgetsLength, Chomp;
    assert (e + rest)[..308] == e && (e + rest)[308..] == rest;
  }

  lemma ChompNothing(e: Str)
    requires NEWLINE !in e
    ensures Chomp(e) == e
  {}

  /** No newline within the room: fgets takes what there is. */
  lemma {:induction false} FgetsOfRest(e: Str, rest: seq<byte>, room: nat)
    requires NEWLINE !in e && |e| <= room && (rest == [] || |e| == room)
    ensures FgetsLength(e + rest, room) == |e|
  {
    if e == [] {
      assert e + rest == rest;
    } else {
      assert (e + rest)[0] == e[0] && e[0] in e;
      assert (e + rest)[1..] == e[1..] + rest;
      FgetsOfRest(e[1..], rest, room - 1);
    }
  }

  /** Entries that can be dumped: no newline inside. */
  predicate Printable(es: seq<Str>) {
    forall i :: 0 <= i < |es| ==> NEWLINE !in es[i]
  }

  /** Entries that one fgets of the reader takes whole. */
  predicate ShortLines(es: seq<Str>) {
    forall i :: 0 <= i < |es| ==> |es[i]| < LINE_MAX
  }

  lemma {:induction false} LinesBack(es: seq<Str>)
    requires Printable(es) && ShortLines(es)
    ensures Lines(DumpOf(es)) == es
  {
    hide Lines;
    if es == [] {
      LinesOfNothing();
    } else {
      LinesBack(es[1..]);
      LineBack(es[0], DumpOf(es[1..]));
    }
  }

  /** The last line needs no newline. */
  lemma {:induction false} LinesOfDump(es: seq<Str>, rest: seq<byte>)
    requires Printable(es) && ShortLines(es)
    ensures Lines(DumpOf(es) + rest) == es + Lines(rest)
    ensures rest != [] && NEWLINE !in rest && |rest| <= 308 ==> Lines(DumpOf(es) + rest) == es + [rest]
  {
    hide Lines;
    if es == [] {
      assert DumpOf(es) + rest == rest && es + Lines(rest) == Lines(rest);
    } else {
      LinesOfDump(es[1..], rest);
      assert DumpOf(es) + rest == es[0] + [NEWLINE] + (DumpOf(es[1..]) + rest);
      LineBack(es[0], DumpOf(es[1..]) + rest);
    }
    if rest != [] && NEWLINE !in rest && |rest| <= 308 { LinesFirst(rest, []); }
  }

  /** So a list dumped without its last newline is added whole. */
  lemma UnterminatedAdds(rs: seq<Str>, es: seq<Str>, e: Str)
    requires Printable(es) && ShortLines(es) && NEWLINE !in e && 0 < |e| <= 308
    ensures AddAll(rs, Lines(DumpOf(es) + e)) == AddAll(rs, es + [e])
    ensures UniqueNames(rs + (es + [e])) ==> AddAll(rs, Lines(DumpOf(es) + e)) == Some(rs + (es + [e]))
  {
    LinesOfDump(es, e);
    hide *;
    if UniqueNames(rs + (es + [e])) { AddAllAppends(rs, es + [e]); }
  }

  /** And a clean run with it stores it. */
  lemma UnterminatedStored(img: Image, es: seq<Str>, e: Str)
    requires Printable(es) && ShortLines(es) && NEWLINE !in e && 0 < |e| <= 308 && UniqueNames(es + [e])
    ensures Decide(false, img, Options(true, Content(DumpOf(es) + e), None, None)) == Stored(es + [e])
  {
    hide *;
    assert [] + (es + [e]) == es + [e];
    UnterminatedAdds([], es, e);
    CleanAdd(img, DumpOf(es) + e);
  }

  lemma CleanAdd(img: Image, bytes: seq<byte>)
    ensures Decide(false, img, Options(true, Content(bytes), None, None)) ==
      match AddAll([], Lines(bytes)) case Some(r) => Stored(r) case None => Refused
  {
    hide AddAll, Lines, CrcOk, IsEmptyData, Unpack;
  }

  lemma LinesOfNothing()
    ensures Lines([]) == []
  {}

  /** Adding entries whose names are all new appends them. */
  lemma {:induction false} AddAllAppends(acc: seq<Str>, es: seq<Str>)
    requires UniqueNames(acc + es)
    ensures AddAll(acc, es) == Some(acc + es)
    decreases |es|
  {
    if es == [] {
      assert acc + es == acc;
    } else {
      PutAppends(acc, es);
      assert acc + [es[0]] + es[1..] == acc + es;
      hide UniqueNames, Put;
      AddAllAppends(acc + [es[0]], es[1..]);
    }
  }

  lemma PutAppends(acc: seq<Str>, es: seq<Str>)
    requires es != [] && UniqueNames(acc + es)
    ensures HasName(es[0]) && Put(acc, es[0]) == acc + [es[0]]
  {
    var all, n := acc + es, |acc|;
    assert all[n] == es[0];
    forall i | 0 <= i < n
      ensures !Assigns(acc[i], NameOf(es[0]))
    {
      assert all[i] == acc[i] && NameOf(all[i]) != NameOf(all[n]);
      AssignsName(acc[i], NameOf(es[0]));
    }
  }

  /** Entries whose names fit the buffers that env_add_var and add_var copy them to. */
  predicate ShortNames(es: seq<Str>) {
    forall i :: 0 <= i < |es| ==> HasName(es[i]) && |NameOf(es[i])| < ENV_MAX_VAR_NAME_LEN
  }

  /** -c -a with the file a dump produced. */
  function Reload(es: seq<Str>): Options {
    Options(true, Content(DumpOf(es)), None, None)
  }

  lemma ReloadNeedsShortLines(es: seq<Str>)
    requires Printable(es) && !ShortLines(es)
    ensures AddAll([], Lines(DumpOf(es))) != Some(es)
  {
    if exists i :: 0 <= i < |es| && |es[i]| > LINE_MAX {
      var i :| 0 <= i < |es| && |es[i]| > LINE_MAX;
      LinesShort(DumpOf(es));
      hide DumpOf, Lines;
      AddAllShort([], Lines(DumpOf(es)));
    } else {
      FullLine(es);
      hide DumpOf, Lines;
      BlankLineStops([], Lines(DumpOf(es)));
    }
  }

  predicate AllShort(es: seq<Str>) {
    forall i :: 0 <= i < |es| ==> |es[i]| <= LINE_MAX
  }

  lemma {:induction false} LinesShort(s: seq<byte>)
    ensures AllShort(Lines(s))
    decreases |s|
  {
    if s != [] {
      FgetsTakes(s);
      LinesShort(s[FgetsLength(s, LINE_MAX)..]);
      hide FgetsLength;
    }
  }

  lemma {:induction false} AddAllShort(acc: seq<Str>, lines: seq<Str>)
    requires AllShort(acc) && AllShort(lines)
    ensures AddAll(acc, lines).Some? ==> AllShort(AddAll(acc, lines).value)
    decreases |lines|
  {
    hide AllShort, Put, HasName;
    if lines != [] && HasName(lines[0]) {
      PutShort(acc, lines);
      AddAllShort(Put(acc, lines[0]), lines[1..]);
    }
  }

  lemma PutShort(acc: seq<Str>, lines: seq<Str>)
    requires AllShort(acc) && AllShort(lines) && lines != [] && HasName(lines[0])
    ensures AllShort(Put(acc, lines[0])) && AllShort(lines[1..])
  {
    hide Find, NameOf, HasName;
    var i := Find(acc, NameOf(lines[0]));
    assert Put(acc, lines[0]) == (if i < |acc| then acc[..i] + acc[i + 1..] else acc) + [lines[0]];
  }

  /** An entry of exactly LINE_MAX bytes leaves its newline for the next fgets. */
  lemma {:induction false} FullLine(es: seq<Str>)
    requires Printable(es) && AllShort(es)
    requires exists i :: 0 <= i < |es| && |es[i]| == LINE_MAX
    ensures [] in Lines(DumpOf(es))
  {
    if |es[0]| == LINE_MAX {
      SplitLine(es[0], DumpOf(es[1..]));
    } else {
      hide Lines;
      var i :| 0 <= i < |es| && |es[i]| == LINE_MAX;
      assert es[1..][i - 1] == es[i];
      FullLine(es[1..]);
      LineBack(es[0], DumpOf(es[1..]));
    }
  }

  lemma SplitLine(e: Str, rest: seq<byte>)
    requires NEWLINE !in e && |e| == LINE_MAX
    ensures [] in Lines(e + [NEWLINE] + rest)
  {
    var s := e + [NEWLINE] + rest;
    FgetsOfLine(e, rest, LINE_MAX);
    assert s[LINE_MAX..] == [] + [NEWLINE] + rest;
    LineBack([], rest);
    hide FgetsLength;
  }

  lemma {:induction false} BlankLineStops(acc: seq<Str>, lines: seq<Str>)
    requires [] in lines
    ensures AddAll(acc, lines) == None
    decreases |lines|
  {
    if HasName(lines[0]) {
      assert lines[0] != [];
      BlankLineStops(Put(acc, lines[0]), lines[1..]);
    }
  }

  /** Entries with new names can be added one by one exactly when their names are short and
      the whole list leaves room for the last terminator. */
  lemma {:induction false} CanAddAllExactly(acc: seq<Str>, es: seq<Str>, size: nat)
    requires UniqueNames(acc + es) && AreEntries(es) && |Body(acc)| < size
    ensures CanAddAll(acc, es, size) <==> ShortNames(es) && |Body(acc + es)| < size
    decreases |es|
  {
    if es == [] {
      assert acc + es == acc;
    } else {
      PutAppends(acc, es);
      assert acc + [es[0]] + es[1..] == acc + es;
      ShortNamesFirst(es);
      FirstString0(es);
      hide UniqueNames, Put, ShortNames, Body;
      BodyAppend(acc + [es[0]], es[1..]);
      if |Body(acc + [es[0]])| < size {
        CanAddAllExactly(acc + [es[0]], es[1..], size);
      }
    }
  }

  lemma ShortNamesFirst(es: seq<Str>)
    requires es != []
    ensures ShortNames(es) <==> HasName(es[0]) && |NameOf(es[0])| < ENV_MAX_VAR_NAME_LEN && ShortNames(es[1..])
  {
    assert forall i :: 0 <= i < |es| - 1 ==> es[1..][i] == es[i + 1];
  }

  lemma FirstString0(es: seq<Str>)
    requires es != [] && AreEntries(es)
    ensures IsString(es[0]) && AreEntries(es[1..])
  {}

  lemma ReloadAdds(es: seq<Str>, size: nat)
    requires AreEntries(es) && UniqueNames(es) && Printable(es) && size > 0
    ensures CanAddAll([], Lines(DumpOf(es)), size) && AddAll([], Lines(DumpOf(es))) == Some(es)
       <==> ShortLines(es) && ShortNames(es) && |Body(es)| < size
  {
    hide *;
    NothingUnique();
    assert [] + es == es;
    if ShortLines(es) {
      LinesBack(es);
      AddAllAppends([], es);
      CanAddAllExactly([], es, size);
    } else {
      ReloadNeedsShortLines(es);
    }
  }

  /** What the run -c -a with a dump of `es` does: it is within what the code can take and
      stores just these entries, if and only if the section is not locked, every entry is
      below the line limit, every name is below the name limit, and the entries fit. Only
      prodinfoenv is meant: ubootenv adds lines for NVRAM variables to its dump. */
  lemma ReloadExact(img: Image, es: seq<Str>)
    requires AreEntries(es) && UniqueNames(es) && Printable(es)
    requires 2 <= |img.data| && (CrcOk(img) ==> WellFormed(img.data))
    ensures Runnable(true, img, Reload(es)) && Decide(true, img, Reload(es)) == Stored(es)
       <==> !Locked(true, img) && ShortLines(es) && ShortNames(es) && |Body(es)| < |img.data|
  {
    hide CrcOk, IsEmptyData, UniqueNames, AreEntries, Printable, ShortLines, ShortNames, DumpOf, Lines, AddAll;
    hide CanAddAll, WellFormed, Body, Unpack;
    ReloadAdds(es, |img.data|);
  }

  /** Dump and reload over stored images: the dump of a sound product-info section can be
      loaded into another section of its size if and only if that one is not locked and lines
      and names are short; then that section holds the same image, checksum included. */
  lemma DumpReload(orig: Image, img: Image)
    requires Sound(orig) && |orig.data| == |img.data| >= 2 && (CrcOk(img) ==> WellFormed(img.data))
    requires Printable(Unpack(orig.data))
    ensures var es := Unpack(orig.data);
      var back := !Locked(true, img) && ShortLines(es) && ShortNames(es);
      && (Runnable(true, img, Reload(es)) && Decide(true, img, Reload(es)) == Stored(es) <==> back)
      && (back ==> After(true, img, Reload(es)) == orig)
  {
    hide Sound, Crc, Rep, Seal, Body, Unpack, UniqueNames, AreEntries, Printable, ShortLines, ShortNames;
    hide Runnable, Locked, WellFormed, Reload, Decide;
    var es := Unpack(orig.data);
    SoundIs(orig);
    SealRep(orig.data, es);
    ReloadExact(img, es);
  }

  lemma SoundIs(img: Image)
    requires Sound(img)
    ensures var es := Unpack(img.data);
      Rep(img.data, es) && AreEntries(es) && UniqueNames(es) && img == Image(Crc(0, img.data), img.data)
  {
    hide Crc, UniqueNames, Unpack;
  }

  // ---------- entries that do not come back ----------

  function Letters(n: nat): Str {
    seq(n, _ => 97)
  }

  /** 308 bytes: the newline is left to the next fgets, which stops the run. */
  lemma LongLineLost()
    ensures var es := [[97, EQUALS] + Letters(306)];
      AreEntries(es) && UniqueNames(es) && Printable(es) && ShortNames(es) && Edit([], Reload(es)) != Some(es)
  {
    hide Lines, DumpOf, AddAll;
    var e := [97, EQUALS] + Letters(306);
    NameIs(e, 1);
    assert [e][0] == e && |e| == LINE_MAX;
    ReloadNeedsShortLines([e]);
  }

  /** Names over the limit: the dump has them, but reloading it is outside what the code can
      take, since the name is copied unchecked. */
  lemma LongNamesOverrun(img: Image, es: seq<Str>)
    requires AreEntries(es) && UniqueNames(es) && Printable(es) && ShortLines(es) && !ShortNames(es)
    requires 2 <= |img.data| && !Locked(true, img)
    ensures !Runnable(true, img, Reload(es))
  {
    hide Lines, DumpOf, CanAddAll, AddAll, Locked, WellFormed, CrcOk, Body, AreEntries, UniqueNames, Printable;
    hide ShortLines, ShortNames, Unpack;
    LinesBack(es);
    NothingUnique();
    assert [] + es == es;
    CanAddAllExactly([], es, |img.data|);
  }

  /** For one, a name of fifty characters, a byte too many for `tmpstr[50]` and `var_name[50]`. */
  lemma LongNameLost(img: Image)
    requires 2 <= |img.data| && !Locked(true, img)
    ensures var es := [Letters(50) + [EQUALS, 49]];
      AreEntries(es) && UniqueNames(es) && Printable(es) && ShortLines(es) && !Runnable(true, img, Reload(es))
  {
    hide Runnable, Locked, Reload;
    var e := Letters(50) + [EQUALS, 49];
    NameIs(e, 50);
    assert [e][0] == e;
    LongNamesOverrun(img, [e]);
  }
}
