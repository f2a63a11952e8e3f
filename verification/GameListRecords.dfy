/** The records of the game-list cache (src/nxemu-loader/game_list_cache.h) and what `Save` and
    `Load` make of them (src/nxemu-loader/game_list_cache.cpp:491-529, 1232-1393). */
module GameListRecords {
  import opened Bytes
  import opened ByteOrder
  import opened Options
  import opened PathOrder
  import opened CacheFormat

  datatype FileStamp = FileStamp(size: nat, modifiedTime: int)

  datatype AddOnEntry = AddOnEntry(titleId: nat, titleType: nat, contentType: nat, version: nat)

  /** Enumerations are kept as the numbers they are stored as. */
  datatype Metadata = Metadata(
    fileType: nat, programIdStatus: nat, programId: nat, programIdsStatus: nat, programIds: seq<nat>,
    titleStatus: nat, title: Bytes, iconStatus: nat, icon: Bytes,
    versionStatus: nat, displayVersion: Bytes, developer: Bytes)

  datatype Update = Update(title: Bytes, icon: Bytes, version: Bytes)

  const NO_UPDATE := Update([], [], [])

  datatype ProgramRecord = ProgramRecord(
    base: Metadata, updateValid: bool, updateFingerprint: nat, update: Update, effective: Option<Metadata>)

  datatype GameFileRecord = GameFileRecord(
    stamp: FileStamp, isGame: bool, programs: seq<ProgramRecord>, addOns: seq<AddOnEntry>, seen: bool)

  datatype AddOnFileRecord = AddOnFileRecord(stamp: FileStamp, entries: seq<AddOnEntry>, seen: bool)

  datatype GameDirectory = GameDirectory(path: Path, scanSubfolders: bool)

  type AddOnFiles = map<Path, AddOnFileRecord>
  type GameFiles = map<Path, GameFileRecord>

  datatype Records = Records(addOnFiles: AddOnFiles, gameFiles: GameFiles, gameDirectories: seq<GameDirectory>)

  const EMPTY := Records(map[], map[], [])

  const CACHE_MAGIC := 0x4C47584E
  const CACHE_VERSION := 5

  // ----- what is kept in the file

  function PersistedProgram(p: ProgramRecord): ProgramRecord {
    p.(effective := None)
  }

  function PersistedPrograms(ps: seq<ProgramRecord>): (r: seq<ProgramRecord>)
    ensures |r| == |ps|
  {
    seq(|ps|, i requires 0 <= i < |ps| => PersistedProgram(ps[i]))
  }

  function PersistedGame(g: GameFileRecord): GameFileRecord {
    g.(programs := PersistedPrograms(g.programs), seen := false)
  }

  function PersistedAddOn(a: AddOnFileRecord): AddOnFileRecord {
    a.(seen := false)
  }

  function Persisted(r: Records): Records {
    Records(map p | p in r.addOnFiles :: PersistedAddOn(r.addOnFiles[p]),
            map p | p in r.gameFiles :: PersistedGame(r.gameFiles[p]),
            r.gameDirectories)
  }

  // ----- the layout

  const STAMP := PairSchema(U64Schema, U64Schema)
  const ENTRY := PairSchema(PairSchema(U64Schema, U32Schema), PairSchema(U32Schema, U32Schema))
  const ENTRIES := ListSchema(ENTRY)
  const PROGRAM_IDS :=
    PairSchema(PairSchema(U32Schema, U32Schema), PairSchema(U64Schema, PairSchema(U32Schema, ListSchema(U64Schema))))
  const TITLE := PairSchema(PairSchema(U32Schema, BlobSchema), PairSchema(U32Schema, BlobSchema))
  const VERSION := PairSchema(U32Schema, PairSchema(BlobSchema, BlobSchema))
  const METADATA := PairSchema(PROGRAM_IDS, PairSchema(TITLE, VERSION))
  const UPDATE :=
    PairSchema(PairSchema(U32Schema, U64Schema), PairSchema(BlobSchema, PairSchema(BlobSchema, BlobSchema)))
  const PROGRAM := PairSchema(METADATA, UPDATE)
  const PROGRAMS := ListSchema(PROGRAM)
  const GAME := PairSchema(PairSchema(BlobSchema, STAMP), PairSchema(U32Schema, PairSchema(PROGRAMS, ENTRIES)))
  const ADD_ON_FILE := PairSchema(PairSchema(BlobSchema, STAMP), ENTRIES)
  const DIRECTORY := PairSchema(BlobSchema, U32Schema)
  const BODY := PairSchema(ListSchema(ADD_ON_FILE), PairSchema(ListSchema(GAME), ListSchema(DIRECTORY)))
  const HEADER := PairSchema(U32Schema, PairSchema(U32Schema, U32Schema))
  const FILE := PairSchema(HEADER, BODY)

  /** The cast of a signed time to 64 bits and back. */
  function TimeBits(t: int): nat {
    t % TWO_64
  }

  function TimeFrom(bits: nat): int {
    if bits >= TWO_64 / 2 then bits - TWO_64 else bits
  }

  function FromBool(b: bool): Value {
    Number(if b then 1 else 0)
  }

  predicate U16(n: nat) {
    n < 0x1_0000
  }

  predicate U32(n: nat) {
    n < TWO_32
  }

  predicate U64(n: nat) {
    n < TWO_64
  }

  predicate Short(b: Bytes) {
    |b| < TWO_32
  }

  // ----- stamps and add-on entries

  predicate StampFits(s: FileStamp) {
    U64(s.size) && -(TWO_64 / 2) <= s.modifiedTime < TWO_64 / 2
  }

  function StampValue(s: FileStamp): Value {
    Pair(Number(s.size), Number(TimeBits(s.modifiedTime)))
  }

  function StampFrom(v: Value): FileStamp
    requires Has(v, STAMP)
  {
    FileStamp(v.first.n, TimeFrom(v.second.n))
  }

  lemma StampBack(s: FileStamp)
    requires StampFits(s)
    ensures Has(StampValue(s), STAMP) && StampFrom(StampValue(s)) == s
  {
  }

  predicate EntryFits(e: AddOnEntry) {
    U64(e.titleId) && e.titleType < 0x100 && e.contentType < 0x100 && U32(e.version)
  }

  function EntryValue(e: AddOnEntry): Value {
    Pair(Pair(Number(e.titleId), Number(e.titleType)), Pair(Number(e.contentType), Number(e.version)))
  }

  function EntryFrom(v: Value): AddOnEntry
    requires Has(v, ENTRY)
  {
    AddOnEntry(v.first.first.n, v.first.second.n % 0x100, v.second.first.n % 0x100, v.second.second.n)
  }

  lemma EntryBack(e: AddOnEntry)
    requires EntryFits(e)
    ensures Has(EntryValue(e), ENTRY) && EntryFrom(EntryValue(e)) == e
  {
  }

  predicate EntriesFit(es: seq<AddOnEntry>) {
    |es| < TWO_32 && forall i :: 0 <= i < |es| ==> EntryFits(es[i])
  }

  function EntriesValue(es: seq<AddOnEntry>): (v: Value) {
    List(seq(|es|, i requires 0 <= i < |es| => EntryValue(es[i])))
  }

  function EntriesFrom(v: Value): seq<AddOnEntry>
    requires Has(v, ENTRIES)
  {
    seq(|v.items|, i requires 0 <= i < |v.items| => EntryFrom(v.items[i]))
  }

  lemma EntriesBack(es: seq<AddOnEntry>)
    requires EntriesFit(es)
    ensures Has(EntriesValue(es), ENTRIES) && EntriesFrom(EntriesValue(es)) == es
  {
    hide EntryValue, EntryFrom, EntryFits;
    forall i | 0 <= i < |es|
      ensures Has(EntryValue(es[i]), ENTRY) && EntryFrom(EntryValue(es[i])) == es[i]
    {
      EntryBack(es[i]);
    }
  }

  // ----- metadata and programs

  predicate MetadataFits(m: Metadata) {
    && U32(m.fileType) && U16(m.programIdStatus) && U64(m.programId) && U16(m.programIdsStatus)
    && |m.programIds| < TWO_32 && (forall i :: 0 <= i < |m.programIds| ==> U64(m.programIds[i]))
    && U16(m.titleStatus) && Short(m.title) && U16(m.iconStatus) && Short(m.icon)
    && U16(m.versionStatus) && Short(m.displayVersion) && Short(m.developer)
  }

  function IdsValue(m: Metadata): Value {
    Pair(Pair(Number(m.fileType), Number(m.programIdStatus)),
         Pair(Number(m.programId), Pair(Number(m.programIdsStatus), NumbersValue(m.programIds))))
  }

  function NumbersValue(ns: seq<nat>): Value {
    List(seq(|ns|, i requires 0 <= i < |ns| => Number(ns[i])))
  }

  function NumbersFrom(v: Value): seq<nat>
    requires Has(v, ListSchema(U64Schema))
  {
    seq(|v.items|, i requires 0 <= i < |v.items| => v.items[i].n)
  }

  lemma NumbersBack(ns: seq<nat>)
    requires |ns| < TWO_32 && forall i :: 0 <= i < |ns| ==> U64(ns[i])
    ensures Has(NumbersValue(ns), ListSchema(U64Schema)) && NumbersFrom(NumbersValue(ns)) == ns
  {
  }

  function TitleValue(m: Metadata): Value {
    Pair(Pair(Number(m.titleStatus), Blob(m.title)), Pair(Number(m.iconStatus), Blob(m.icon)))
  }

  function VersionValue(m: Metadata): Value {
    Pair(Number(m.versionStatus), Pair(Blob(m.displayVersion), Blob(m.developer)))
  }

  function MetadataValue(m: Metadata): Value {
    Pair(IdsValue(m), Pair(TitleValue(m), VersionValue(m)))
  }

  /** A status has 16 bits. */
  function Status(v: Value): nat
    requires v.Number?
  {
    v.n % 0x1_0000
  }

  function MetadataFrom(v: Value): Metadata
    requires v.Pair? && Has(v.first, PROGRAM_IDS) && v.second.Pair? && Has(v.second.first, TITLE)
      && Has(v.second.second, VERSION)
  {
    var ids, title, version := v.first, v.second.first, v.second.second;
    Metadata(ids.first.first.n, Status(ids.first.second), ids.second.first.n, Status(ids.second.second.first),
             NumbersFrom(ids.second.second.second),
             Status(title.first.first), title.first.second.bytes, Status(title.second.first), title.second.second.bytes,
             Status(version.first), version.second.first.bytes, version.second.second.bytes)
  }

  lemma IdsHas(m: Metadata)
    requires MetadataFits(m)
    ensures Has(IdsValue(m), PROGRAM_IDS)
  {
    NumbersBack(m.programIds);
    hide NumbersValue;
  }

  lemma MetadataHas(m: Metadata)
    requires MetadataFits(m)
    ensures Has(TitleValue(m), TITLE) && Has(VersionValue(m), VERSION)
    ensures Has(MetadataValue(m), METADATA)
  {
    IdsHas(m);
    TitleHas(m);
    VersionHas(m);
    hide IdsValue, TitleValue, VersionValue, MetadataFits;
    PairHas(TitleValue(m), VersionValue(m), TITLE, VERSION);
    PairHas(IdsValue(m), Pair(TitleValue(m), VersionValue(m)), PROGRAM_IDS, PairSchema(TITLE, VERSION));
  }

  lemma TitleHas(m: Metadata)
    requires MetadataFits(m)
    ensures Has(TitleValue(m), TITLE)
  {
    PairHas(Number(m.titleStatus), Blob(m.title), U32Schema, BlobSchema);
    PairHas(Number(m.iconStatus), Blob(m.icon), U32Schema, BlobSchema);
  }

  lemma VersionHas(m: Metadata)
    requires MetadataFits(m)
    ensures Has(VersionValue(m), VERSION)
  {
    PairHas(Blob(m.displayVersion), Blob(m.developer), BlobSchema, BlobSchema);
  }

  lemma MetadataBack(m: Metadata)
    requires MetadataFits(m)
    ensures Has(MetadataValue(m), METADATA) && MetadataFrom(MetadataValue(m)) == m
  {
    IdsHas(m);
    MetadataHas(m);
    NumbersBack(m.programIds);
    hide NumbersValue, NumbersFrom;
  }

  predicate ProgramFits(p: ProgramRecord) {
    && MetadataFits(p.base) && U64(p.updateFingerprint)
    && Short(p.update.title) && Short(p.update.icon) && Short(p.update.version)
  }

  function UpdateValue(p: ProgramRecord): Value {
    Pair(Pair(FromBool(p.updateValid), Number(p.updateFingerprint)),
         Pair(Blob(p.update.title), Pair(Blob(p.update.icon), Blob(p.update.version))))
  }

  function ProgramValue(p: ProgramRecord): Value {
    Pair(MetadataValue(p.base), UpdateValue(p))
  }

  lemma MetadataParts(v: Value)
    requires Has(v, METADATA)
    ensures v.Pair? && Has(v.first, PROGRAM_IDS) && v.second.Pair? && Has(v.second.first, TITLE)
      && Has(v.second.second, VERSION)
  {
  }

  lemma ProgramParts(v: Value)
    requires Has(v, PROGRAM)
    ensures v.Pair? && Has(v.first, METADATA) && Has(v.second, UPDATE)
  {
  }

  function ProgramFrom(v: Value): ProgramRecord
    requires Has(v, PROGRAM)
  {
    ProgramParts(v);
    MetadataParts(v.first);
    var u := v.second;
    ProgramRecord(MetadataFrom(v.first), u.first.first.n != 0, u.first.second.n,
                  Update(u.second.first.bytes, u.second.second.first.bytes, u.second.second.second.bytes), None)
  }

  lemma ProgramHas(p: ProgramRecord)
    requires ProgramFits(p)
    ensures Has(ProgramValue(p), PROGRAM) && Has(UpdateValue(p), UPDATE) && Has(MetadataValue(p.base), METADATA)
  {
    MetadataBack(p.base);
    UpdateHas(p);
    hide MetadataValue, UpdateValue, MetadataFits;
    PairHas(MetadataValue(p.base), UpdateValue(p), METADATA, UPDATE);
  }

  lemma UpdateHas(p: ProgramRecord)
    requires ProgramFits(p)
    ensures Has(UpdateValue(p), UPDATE)
  {
    hide MetadataFits;
    PairHas(FromBool(p.updateValid), Number(p.updateFingerprint), U32Schema, U64Schema);
    PairHas(Blob(p.update.icon), Blob(p.update.version), BlobSchema, BlobSchema);
    PairHas(Blob(p.update.title), Pair(Blob(p.update.icon), Blob(p.update.version)), BlobSchema,
      PairSchema(BlobSchema, BlobSchema));
  }

  lemma ProgramBack(p: ProgramRecord)
    requires ProgramFits(p)
    ensures Has(ProgramValue(p), PROGRAM) && ProgramFrom(ProgramValue(p)) == PersistedProgram(p)
  {
    MetadataBack(p.base);
    ProgramHas(p);
    hide MetadataValue, MetadataFits, MetadataFrom;
  }

  predicate ProgramsFit(ps: seq<ProgramRecord>) {
    |ps| < TWO_32 && forall i :: 0 <= i < |ps| ==> ProgramFits(ps[i])
  }

  function ProgramsValue(ps: seq<ProgramRecord>): Value {
    List(seq(|ps|, i requires 0 <= i < |ps| => ProgramValue(ps[i])))
  }

  function ProgramsFrom(v: Value): seq<ProgramRecord>
    requires Has(v, PROGRAMS)
  {
    seq(|v.items|, i requires 0 <= i < |v.items| => ProgramFrom(v.items[i]))
  }

  lemma ProgramsBack(ps: seq<ProgramRecord>)
    requires ProgramsFit(ps)
    ensures Has(ProgramsValue(ps), PROGRAMS) && ProgramsFrom(ProgramsValue(ps)) == PersistedPrograms(ps)
  {
    hide ProgramValue, ProgramFrom, ProgramFits;
    forall i | 0 <= i < |ps|
      ensures Has(ProgramValue(ps[i]), PROGRAM) && ProgramFrom(ProgramValue(ps[i])) == PersistedProgram(ps[i])
    {
      ProgramBack(ps[i]);
    }
  }

  lemma PairHas(v: Value, w: Value, a: Schema, b: Schema)
    requires Has(v, a) && Has(w, b)
    ensures Has(Pair(v, w), PairSchema(a, b))
  {
  }

  lemma PairParts(v: Value, a: Schema, b: Schema)
    requires Has(v, PairSchema(a, b))
    ensures v.Pair? && Has(v.first, a) && Has(v.second, b)
  {
  }

  // ----- files and directories

  /** A key of a map with its record. */
  datatype Filed<T> = Filed(path: Path, record: T)

  predicate AddOnFits(f: Filed<AddOnFileRecord>) {
    Short(f.path) && StampFits(f.record.stamp) && EntriesFit(f.record.entries)
  }

  function AddOnValue(f: Filed<AddOnFileRecord>): Value {
    Pair(Pair(Blob(f.path), StampValue(f.record.stamp)), EntriesValue(f.record.entries))
  }

  lemma AddOnParts(v: Value)
    requires Has(v, ADD_ON_FILE)
    ensures v.Pair? && v.first.Pair? && v.first.first.Blob? && Has(v.first.second, STAMP) && Has(v.second, ENTRIES)
  {
    PairParts(v, PairSchema(BlobSchema, STAMP), ENTRIES);
    PairParts(v.first, BlobSchema, STAMP);
  }

  function AddOnFrom(v: Value): Filed<AddOnFileRecord>
    requires Has(v, ADD_ON_FILE)
  {
    AddOnParts(v);
    Filed(v.first.first.bytes, AddOnFileRecord(StampFrom(v.first.second), EntriesFrom(v.second), false))
  }

  lemma AddOnBack(f: Filed<AddOnFileRecord>)
    requires AddOnFits(f)
    ensures Has(AddOnValue(f), ADD_ON_FILE) && AddOnFrom(AddOnValue(f)) == Filed(f.path, PersistedAddOn(f.record))
  {
    StampBack(f.record.stamp);
    EntriesBack(f.record.entries);
    hide StampValue, StampFrom, EntriesValue, EntriesFrom, StampFits, EntriesFit;
    PairHas(Blob(f.path), StampValue(f.record.stamp), BlobSchema, STAMP);
    PairHas(Pair(Blob(f.path), StampValue(f.record.stamp)), EntriesValue(f.record.entries),
      PairSchema(BlobSchema, STAMP), ENTRIES);
  }

  predicate GameFits(f: Filed<GameFileRecord>) {
    Short(f.path) && StampFits(f.record.stamp) && ProgramsFit(f.record.programs) && EntriesFit(f.record.addOns)
  }

  function GameValue(f: Filed<GameFileRecord>): Value {
    Pair(Pair(Blob(f.path), StampValue(f.record.stamp)),
         Pair(FromBool(f.record.isGame), Pair(ProgramsValue(f.record.programs), EntriesValue(f.record.addOns))))
  }

  lemma GameParts(v: Value)
    requires Has(v, GAME)
    ensures v.Pair? && v.first.Pair? && v.first.first.Blob? && Has(v.first.second, STAMP)
    ensures v.second.Pair? && v.second.first.Number? && v.second.second.Pair?
    ensures Has(v.second.second.first, PROGRAMS) && Has(v.second.second.second, ENTRIES)
  {
    PairParts(v, PairSchema(BlobSchema, STAMP), PairSchema(U32Schema, PairSchema(PROGRAMS, ENTRIES)));
    PairParts(v.first, BlobSchema, STAMP);
    PairParts(v.second, U32Schema, PairSchema(PROGRAMS, ENTRIES));
    PairParts(v.second.second, PROGRAMS, ENTRIES);
  }

  function GameFrom(v: Value): Filed<GameFileRecord>
    requires Has(v, GAME)
  {
    GameParts(v);
    Filed(v.first.first.bytes,
          GameFileRecord(StampFrom(v.first.second), v.second.first.n != 0, ProgramsFrom(v.second.second.first),
                         EntriesFrom(v.second.second.second), false))
  }

  lemma GameBack(f: Filed<GameFileRecord>)
    requires GameFits(f)
    ensures Has(GameValue(f), GAME) && GameFrom(GameValue(f)) == Filed(f.path, PersistedGame(f.record))
  {
    StampBack(f.record.stamp);
    EntriesBack(f.record.addOns);
    ProgramsBack(f.record.programs);
    hide StampValue, StampFrom, EntriesValue, EntriesFrom, StampFits, EntriesFit, ProgramsValue, ProgramsFrom,
         ProgramsFit, PersistedPrograms;
    var head, programs, addOns :=
      Pair(Blob(f.path), StampValue(f.record.stamp)), ProgramsValue(f.record.programs), EntriesValue(f.record.addOns);
    PairHas(Blob(f.path), StampValue(f.record.stamp), BlobSchema, STAMP);
    PairHas(programs, addOns, PROGRAMS, ENTRIES);
    PairHas(FromBool(f.record.isGame), Pair(programs, addOns), U32Schema, PairSchema(PROGRAMS, ENTRIES));
    PairHas(head, Pair(FromBool(f.record.isGame), Pair(programs, addOns)), PairSchema(BlobSchema, STAMP),
            PairSchema(U32Schema, PairSchema(PROGRAMS, ENTRIES)));
  }

  function DirectoryValue(d: GameDirectory): Value {
    Pair(Blob(d.path), FromBool(d.scanSubfolders))
  }

  function DirectoryFrom(v: Value): GameDirectory
    requires Has(v, DIRECTORY)
  {
    GameDirectory(v.first.bytes, v.second.n != 0)
  }

  lemma DirectoryBack(d: GameDirectory)
    requires Short(d.path)
    ensures Has(DirectoryValue(d), DIRECTORY) && DirectoryFrom(DirectoryValue(d)) == d
  {
  }

  // ----- lists of them

  function AddOnsValue(fs: seq<Filed<AddOnFileRecord>>): Value {
    List(seq(|fs|, i requires 0 <= i < |fs| => AddOnValue(fs[i])))
  }

  function GamesValue(fs: seq<Filed<GameFileRecord>>): Value {
    List(seq(|fs|, i requires 0 <= i < |fs| => GameValue(fs[i])))
  }

  function DirectoriesValue(ds: seq<GameDirectory>): Value {
    List(seq(|ds|, i requires 0 <= i < |ds| => DirectoryValue(ds[i])))
  }

  /** `operator[]` finds or makes the record, and the loops of `Load` add to it. */
  function AddOnsFrom(items: seq<Value>): AddOnFiles
    requires AllHave(items, ADD_ON_FILE)
  {
    if items == [] then map[]
    else
      var front := AddOnsFrom(items[..|items| - 1]);
      var f := AddOnFrom(items[|items| - 1]);
      front[f.path := if f.path in front then f.record.(entries := front[f.path].entries + f.record.entries)
        else f.record]
  }

  function GamesFrom(items: seq<Value>): GameFiles
    requires AllHave(items, GAME)
  {
    if items == [] then map[]
    else
      var front := GamesFrom(items[..|items| - 1]);
      var f := GameFrom(items[|items| - 1]);
      front[f.path := if f.path in front
                      then f.record.(programs := front[f.path].programs + f.record.programs,
                                     addOns := front[f.path].addOns + f.record.addOns)
                      else f.record]
  }

  function DirectoriesFrom(items: seq<Value>): seq<GameDirectory>
    requires AllHave(items, DIRECTORY)
  {
    seq(|items|, i requires 0 <= i < |items| => DirectoryFrom(items[i]))
  }

  lemma DirectoriesBack(ds: seq<GameDirectory>)
    requires |ds| < TWO_32 && forall i :: 0 <= i < |ds| ==> Short(ds[i].path)
    ensures Has(DirectoriesValue(ds), ListSchema(DIRECTORY)) && AllHave(DirectoriesValue(ds).items, DIRECTORY)
    ensures DirectoriesFrom(DirectoriesValue(ds).items) == ds
  {
    hide DirectoryValue, DirectoryFrom;
    forall i | 0 <= i < |ds|
      ensures Has(DirectoryValue(ds[i]), DIRECTORY) && DirectoryFrom(DirectoryValue(ds[i])) == ds[i]
    {
      DirectoryBack(ds[i]);
    }
  }

  predicate Distinct<T>(fs: seq<Filed<T>>) {
    forall i, j :: 0 <= i < j < |fs| ==> fs[i].path != fs[j].path
  }

  predicate IsFiled<T>(fs: seq<Filed<T>>, p: Path) {
    exists i :: 0 <= i < |fs| && fs[i].path == p
  }

  /** The map holds exactly the listed files, each record after `f`. */
  ghost predicate FiledAs<T(!new)>(fs: seq<Filed<T>>, m: map<Path, T>, f: T -> T) {
    && (forall i :: 0 <= i < |fs| ==> fs[i].path in m && m[fs[i].path] == f(fs[i].record))
    && (forall p :: p in m ==> IsFiled(fs, p))
  }

  lemma FileOneMore<T(!new)>(fs: seq<Filed<T>>, m: map<Path, T>, f: T -> T)
    requires fs != [] && Distinct(fs) && FiledAs(fs[..|fs| - 1], m, f)
    ensures var last := fs[|fs| - 1]; last.path !in m && FiledAs(fs, m[last.path := f(last.record)], f)
  {
    var front, last := fs[..|fs| - 1], fs[|fs| - 1];
    assert !IsFiled(front, last.path);
    forall i | 0 <= i < |fs|
      ensures fs[i].path in m[last.path := f(last.record)]
      ensures m[last.path := f(last.record)][fs[i].path] == f(fs[i].record)
    {
      if i < |front| {
        assert front[i] == fs[i];
      }
    }
    forall p | p in m
      ensures IsFiled(fs, p)
    {
      var i :| 0 <= i < |front| && front[i].path == p;
      assert fs[i].path == p;
    }
    assert fs[|fs| - 1].path == last.path;
  }

  lemma {:induction false} AddOnsBack(fs: seq<Filed<AddOnFileRecord>>)
    requires Distinct(fs) && forall i :: 0 <= i < |fs| ==> AddOnFits(fs[i])
    ensures AllHave(AddOnsValue(fs).items, ADD_ON_FILE)
    ensures FiledAs(fs, AddOnsFrom(AddOnsValue(fs).items), PersistedAddOn)
  {
    hide AddOnValue, AddOnFrom, AddOnFits, PersistedAddOn, Has;
    forall i | 0 <= i < |fs|
      ensures Has(AddOnValue(fs[i]), ADD_ON_FILE)
    {
      AddOnBack(fs[i]);
    }
    if fs != [] {
      hide FiledAs;
      var front := fs[..|fs| - 1];
      AddOnsBack(front);
      assert AddOnsValue(fs).items[..|fs| - 1] == AddOnsValue(front).items;
      AddOnBack(fs[|fs| - 1]);
      FileOneMore(fs, AddOnsFrom(AddOnsValue(front).items), PersistedAddOn);
    }
  }

  lemma {:induction false} GamesBack(fs: seq<Filed<GameFileRecord>>)
    requires Distinct(fs) && forall i :: 0 <= i < |fs| ==> GameFits(fs[i])
    ensures AllHave(GamesValue(fs).items, GAME)
    ensures FiledAs(fs, GamesFrom(GamesValue(fs).items), PersistedGame)
  {
    hide GameValue, GameFrom, GameFits, PersistedGame, Has;
    forall i | 0 <= i < |fs|
      ensures Has(GameValue(fs[i]), GAME)
    {
      GameBack(fs[i]);
    }
    if fs != [] {
      hide FiledAs;
      var front := fs[..|fs| - 1];
      GamesBack(front);
      assert GamesValue(fs).items[..|fs| - 1] == GamesValue(front).items;
      GameBack(fs[|fs| - 1]);
      FileOneMore(fs, GamesFrom(GamesValue(front).items), PersistedGame);
    }
  }

  // ----- whole files

  /** A map in the order of its keys. */
  ghost function InOrder<T>(m: map<Path, T>): (fs: seq<Filed<T>>)
    ensures |fs| == |m.Keys|
  {
    var keys := SortedKeys(m.Keys);
    SortedKeysAre(m.Keys);
    seq(|keys|, i requires 0 <= i < |keys| => assert keys[i] in m; Filed(keys[i], m[keys[i]]))
  }

  lemma InOrderFiles<T(!new)>(m: map<Path, T>)
    ensures Distinct(InOrder(m)) && FiledAs(InOrder(m), m, x => x)
  {
    hide SortedKeys;
    SortedKeysAre(m.Keys);
    SortedKeysDistinct(m.Keys);
    var keys := SortedKeys(m.Keys);
    forall p | p in m
      ensures IsFiled(InOrder(m), p)
    {
      var i :| 0 <= i < |keys| && keys[i] == p;
      assert InOrder(m)[i].path == p;
    }
  }

  /** Everything fits its field of the file. */
  predicate Fits(r: Records) {
    && |r.addOnFiles| < TWO_32 && |r.gameFiles| < TWO_32 && |r.gameDirectories| < TWO_32
    && (forall p :: p in r.addOnFiles ==> AddOnFits(Filed(p, r.addOnFiles[p])))
    && (forall p :: p in r.gameFiles ==> GameFits(Filed(p, r.gameFiles[p])))
    && (forall i :: 0 <= i < |r.gameDirectories| ==> Short(r.gameDirectories[i].path))
  }

  function HeaderValue(language: nat): Value {
    Pair(Number(CACHE_MAGIC), Pair(Number(CACHE_VERSION), Number(language)))
  }

  lemma FitsInOrder(r: Records)
    requires Fits(r)
    ensures forall i :: 0 <= i < |InOrder(r.addOnFiles)| ==> AddOnFits(InOrder(r.addOnFiles)[i])
    ensures forall i :: 0 <= i < |InOrder(r.gameFiles)| ==> GameFits(InOrder(r.gameFiles)[i])
  {
    hide AddOnFits, GameFits, InOrder, IsFiled;
    InOrderFiles(r.addOnFiles);
    InOrderFiles(r.gameFiles);
    forall i | 0 <= i < |InOrder(r.addOnFiles)|
      ensures AddOnFits(InOrder(r.addOnFiles)[i])
    {
      var f := InOrder(r.addOnFiles)[i];
      assert f == Filed(f.path, r.addOnFiles[f.path]);
    }
    forall i | 0 <= i < |InOrder(r.gameFiles)|
      ensures GameFits(InOrder(r.gameFiles)[i])
    {
      var f := InOrder(r.gameFiles)[i];
      assert f == Filed(f.path, r.gameFiles[f.path]);
    }
  }

  ghost function BodyValue(r: Records): Value {
    Pair(AddOnsValue(InOrder(r.addOnFiles)),
      Pair(GamesValue(InOrder(r.gameFiles)), DirectoriesValue(r.gameDirectories)))
  }

  function BodyFrom(v: Value): Records
    requires Has(v, BODY)
  {
    BodyParts(v);
    Records(AddOnsFrom(v.first.items), GamesFrom(v.second.first.items), DirectoriesFrom(v.second.second.items))
  }

  lemma BodyParts(v: Value)
    requires Has(v, BODY)
    ensures v.Pair? && v.first.List? && AllHave(v.first.items, ADD_ON_FILE)
    ensures v.second.Pair? && v.second.first.List? && AllHave(v.second.first.items, GAME)
    ensures v.second.second.List? && AllHave(v.second.second.items, DIRECTORY)
  {
    PairParts(v, ListSchema(ADD_ON_FILE), PairSchema(ListSchema(GAME), ListSchema(DIRECTORY)));
    PairParts(v.second, ListSchema(GAME), ListSchema(DIRECTORY));
    ListParts(v.first, ADD_ON_FILE);
    ListParts(v.second.first, GAME);
    ListParts(v.second.second, DIRECTORY);
  }

  lemma ListParts(v: Value, item: Schema)
    requires Has(v, ListSchema(item))
    ensures v.List? && AllHave(v.items, item)
  {
  }

  lemma ListHas(items: seq<Value>, item: Schema)
    requires |items| < TWO_32 && AllHave(items, item)
    ensures Has(List(items), ListSchema(item))
  {
  }

  lemma BodyHas(r: Records)
    requires Fits(r)
    ensures Has(BodyValue(r), BODY)
  {
    FitsInOrder(r);
    InOrderFiles(r.addOnFiles);
    InOrderFiles(r.gameFiles);
    var addOns, games := InOrder(r.addOnFiles), InOrder(r.gameFiles);
    AddOnsBack(addOns);
    GamesBack(games);
    DirectoriesBack(r.gameDirectories);
    hide AddOnFits, GameFits, AddOnValue, GameValue, DirectoriesValue, InOrder, Has, AllHave;
    ListHas(AddOnsValue(addOns).items, ADD_ON_FILE);
    ListHas(GamesValue(games).items, GAME);
    PairHas(GamesValue(games), DirectoriesValue(r.gameDirectories), ListSchema(GAME), ListSchema(DIRECTORY));
    PairHas(AddOnsValue(addOns), Pair(GamesValue(games), DirectoriesValue(r.gameDirectories)), ListSchema(ADD_ON_FILE),
            PairSchema(ListSchema(GAME), ListSchema(DIRECTORY)));
  }

  lemma BodyBack(r: Records)
    requires Fits(r)
    ensures Has(BodyValue(r), BODY) && BodyFrom(BodyValue(r)) == Persisted(r)
  {
    BodyHas(r);
    FitsInOrder(r);
    AddOnMapBack(r);
    GameMapBack(r);
    DirectoriesBack(r.gameDirectories);
    hide AddOnFits, GameFits, AddOnsValue, GamesValue, DirectoriesValue, InOrder, Has, AllHave, AddOnsFrom, GamesFrom,
         DirectoriesFrom, Fits;
  }

  /** A map is determined by its files. */
  lemma SameMap<T(!new)>(fs: seq<Filed<T>>, r: map<Path, T>, m: map<Path, T>, f: T -> T)
    requires FiledAs(fs, r, x => x) && FiledAs(fs, m, f)
    ensures m == map p | p in r :: f(r[p])
  {
    forall p | p in r
      ensures p in m && m[p] == f(r[p])
    {
      assert IsFiled(fs, p);
      var i :| 0 <= i < |fs| && fs[i].path == p;
    }
    forall p | p in m
      ensures p in r
    {
      assert IsFiled(fs, p);
      var i :| 0 <= i < |fs| && fs[i].path == p;
    }
  }

  lemma AddOnMapBack(r: Records)
    requires Fits(r)
    ensures AllHave(AddOnsValue(InOrder(r.addOnFiles)).items, ADD_ON_FILE)
    ensures AddOnsFrom(AddOnsValue(InOrder(r.addOnFiles)).items) == Persisted(r).addOnFiles
  {
    hide AddOnFits, GameFits, InOrder, AddOnsFrom, AddOnValue, PersistedAddOn, PersistedGame, AllHave, FiledAs, Fits;
    FitsInOrder(r);
    InOrderFiles(r.addOnFiles);
    var fs := InOrder(r.addOnFiles);
    AddOnsBack(fs);
    var m := AddOnsFrom(AddOnsValue(fs).items);
    SameMap(fs, r.addOnFiles, m, PersistedAddOn);
    assert m == Persisted(r).addOnFiles;
  }

  lemma GameMapBack(r: Records)
    requires Fits(r)
    ensures AllHave(GamesValue(InOrder(r.gameFiles)).items, GAME)
    ensures GamesFrom(GamesValue(InOrder(r.gameFiles)).items) == Persisted(r).gameFiles
  {
    hide AddOnFits, GameFits, InOrder, GamesFrom, GameValue, PersistedAddOn, PersistedGame, AllHave, FiledAs, Fits;
    FitsInOrder(r);
    InOrderFiles(r.gameFiles);
    var fs := InOrder(r.gameFiles);
    GamesBack(fs);
    var m := GamesFrom(GamesValue(fs).items);
    SameMap(fs, r.gameFiles, m, PersistedGame);
    assert m == Persisted(r).gameFiles;
  }

  // ----- Save and Load

  ghost function FileValue(r: Records, language: nat): Value {
    Pair(HeaderValue(language), BodyValue(r))
  }

  lemma FileHas(r: Records, language: nat)
    requires Fits(r) && language < TWO_32
    ensures Has(HeaderValue(language), HEADER) && Has(FileValue(r, language), FILE)
  {
    BodyHas(r);
    assert Has(HeaderValue(language), HEADER);
    hide BodyValue, HeaderValue, Has, Fits;
    PairHas(HeaderValue(language), BodyValue(r), HEADER, BODY);
  }

  /** What `Save` writes. */
  ghost function SaveFile(r: Records, language: nat): Bytes
    requires Fits(r) && language < TWO_32
  {
    FileHas(r, language);
    Encode(FileValue(r, language), FILE)
  }

  /** What `Load` takes over from a file, if anything: the header must match, and nothing may
      be missing. */
  function LoadFile(data: Bytes, language: nat): Option<Records> {
    var header := Decode(HEADER, Reader(data, 0, true));
    if header.value != HeaderValue(language) then None
    else
      var body := Decode(BODY, header.reader);
      if !body.reader.ok then None
      else
        DecodeHas(BODY, header.reader);
        Some(BodyFrom(body.value))
  }

  /** The memory after `Load`: all of the file, or what was there before. */
  function AfterLoad(file: Option<Bytes>, memory: Records, language: nat): Records {
    if file.None? then memory
    else
      var loaded := LoadFile(file.value, language);
      if loaded.None? then memory else loaded.value
  }

  /** Loading a saved file restores every persisted field of every record. */
  lemma LoadAfterSave(r: Records, language: nat)
    requires Fits(r) && language < TWO_32
    ensures LoadFile(SaveFile(r, language), language) == Some(Persisted(r))
  {
    FileHas(r, language);
    BodyBack(r);
    RoundTrip(FileValue(r, language), FILE);
    hide Fits, BodyValue, HeaderValue, Has, BodyFrom, Persisted, Encode;
    FileDecodes(SaveFile(r, language));
  }

  /** The file is its header and then its body. */
  lemma FileDecodes(data: Bytes)
    ensures var header := Decode(HEADER, Reader(data, 0, true));
            var body := Decode(BODY, header.reader);
            Decode(FILE, Reader(data, 0, true)) == Got(Pair(header.value, body.value), body.reader)
  {
  }

  /** Every strict prefix of a saved file leaves the memory as it is. */
  lemma PrefixIsRejected(r: Records, language: nat, n: nat, memory: Records)
    requires Fits(r) && language < TWO_32 && n < |SaveFile(r, language)|
    ensures AfterLoad(Some(SaveFile(r, language)[..n]), memory, language) == memory
  {
    FileHas(r, language);
    hide Fits, BodyValue, HeaderValue, Has, BodyFrom, Encode;
    PrefixFails(FileValue(r, language), FILE, n);
    FileDecodes(SaveFile(r, language)[..n]);
  }

  /** So does a file saved under another language. */
  lemma OtherLanguageIsRejected(r: Records, language: nat, other: nat, memory: Records)
    requires Fits(r) && language < TWO_32 && other < TWO_32 && language != other
    ensures AfterLoad(Some(SaveFile(r, language)), memory, other) == memory
  {
    FileHas(r, language);
    RoundTrip(FileValue(r, language), FILE);
    assert HeaderValue(language) != HeaderValue(other);
    hide Fits, BodyValue, HeaderValue, Has, BodyFrom, Encode;
    FileDecodes(SaveFile(r, language));
  }

  // ----- which files are taken over

  /** The file starts with the magic number, version 5, the language and the encoding of `v`. */
  ghost predicate IsCacheFile(data: Bytes, language: nat, v: Value) {
    Has(v, BODY)
    && LittleEndian(0x4C47584E, 4) + LittleEndian(5, 4) + LittleEndian(language, 4) + Encode(v, BODY) <= data
  }

  lemma HeaderText(language: nat)
    requires language < TWO_32
    ensures Has(HeaderValue(language), HEADER)
    ensures Encode(HeaderValue(language), HEADER)
         == LittleEndian(0x4C47584E, 4) + LittleEndian(5, 4) + LittleEndian(language, 4)
  {
    hide LittleEndian;
    assert Encode(HeaderValue(language), HEADER)
        == LittleEndian(0x4C47584E, 4) + (LittleEndian(5, 4) + LittleEndian(language, 4));
  }

  lemma AtFront(data: Bytes, bytes: Bytes)
    ensures At(Reader(data, 0, true), bytes) <==> bytes <= data
  {
  }

  lemma FileText(language: nat, v: Value)
    requires language < TWO_32 && Has(v, BODY)
    ensures Has(Pair(HeaderValue(language), v), FILE)
    ensures Encode(Pair(HeaderValue(language), v), FILE)
         == LittleEndian(0x4C47584E, 4) + LittleEndian(5, 4) + LittleEndian(language, 4) + Encode(v, BODY)
  {
    HeaderText(language);
    hide LittleEndian, HeaderValue;
    PairHas(HeaderValue(language), v, HEADER, BODY);
    PairText(HeaderValue(language), v, HEADER, BODY);
  }

  lemma PairText(v: Value, w: Value, a: Schema, b: Schema)
    requires Has(v, a) && Has(w, b)
    ensures Has(Pair(v, w), PairSchema(a, b)) && Encode(Pair(v, w), PairSchema(a, b)) == Encode(v, a) + Encode(w, b)
  {
  }

  lemma CacheFileLoads(data: Bytes, language: nat, v: Value)
    requires language < TWO_32 && IsCacheFile(data, language, v)
    ensures LoadFile(data, language) == Some(BodyFrom(v))
  {
    FileText(language, v);
    hide LittleEndian, HeaderValue, Has, Encode, BodyFrom;
    var r := Reader(data, 0, true);
    AtFront(data, Encode(Pair(HeaderValue(language), v), FILE));
    hide At;
    ReadsBack(Pair(HeaderValue(language), v), FILE, r);
    FileDecodes(data);
  }

  lemma LoadedIsCacheFile(data: Bytes, language: nat) returns (v: Value)
    requires language < TWO_32 && LoadFile(data, language).Some?
    ensures IsCacheFile(data, language, v)
  {
    hide LittleEndian, HeaderValue, Has, Encode, BodyFrom;
    var r := Reader(data, 0, true);
    var header := Decode(HEADER, r);
    FileDecodes(data);
    v := Decode(BODY, header.reader).value;
    DecodeHas(BODY, header.reader);
    DecodeIsEncoded(FILE, r);
    FileText(language, v);
    AtFront(data, Encode(Pair(header.value, v), FILE));
  }

  /** `Load` takes a file over if and only if it starts with the header of this version and
      language and the complete encoding of the three tables; what follows does not matter. */
  lemma LoadsExactlyCacheFiles(data: Bytes, language: nat)
    requires language < TWO_32
    ensures LoadFile(data, language).Some? <==> exists v :: IsCacheFile(data, language, v)
    ensures forall v :: IsCacheFile(data, language, v) ==> LoadFile(data, language) == Some(BodyFrom(v))
  {
    hide IsCacheFile, LoadFile, BodyFrom;
    if LoadFile(data, language).Some? {
      var v := LoadedIsCacheFile(data, language);
    }
    forall v | IsCacheFile(data, language, v)
      ensures Has(v, BODY) && LoadFile(data, language) == Some(BodyFrom(v))
    {
      CacheFileHas(data, language, v);
      CacheFileLoads(data, language, v);
    }
  }

  lemma CacheFileHas(data: Bytes, language: nat, v: Value)
    requires IsCacheFile(data, language, v)
    ensures Has(v, BODY)
  {
  }
}
