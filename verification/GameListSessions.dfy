/** The flag `m_dirty` over whole sessions: as long as it is not set, loading the file on disk
    would give exactly the records in memory
    (src/nxemu-loader/game_list_cache.cpp:642-773, 1232-1393). */
module GameListSessions {
  import opened Bytes
  import opened Options
  import opened PathOrder
  import opened CacheFormat
  import opened GameListRecords
  import opened GameListUpdates
  import opened GameListScan

  /** A step that leaves the flag unset had it unset, and changed nothing that is stored. */
  predicate Honest(s: State, s': State) {
    !s'.dirty ==> !s.dirty && Persisted(s'.records) == Persisted(s.records)
  }

  // ----- every phase of a scan is honest

  lemma PersistedReported(ps: seq<ProgramRecord>)
    ensures PersistedPrograms(ReportedPrograms(ps)) == PersistedPrograms(ps)
  {
    hide Overlay;
  }

  lemma VisitedKnown(env: Env, games: GameFiles, f: DirFile)
    requires UpToDate(games, f)
    ensures PersistedGame(Visited(env, games, f)) == PersistedGame(games[f.path])
  {
    hide PersistedPrograms, ReportedPrograms;
    PersistedReported(games[f.path].programs);
  }

  lemma OneIsHonest(env: Env, s: State, f: DirFile)
    ensures Honest(s, ScanOne(env, s, f))
  {
    hide PersistedGame, Visited, PersistedAddOn;
    var games := s.records.gameFiles;
    if !Seen(games, f.path) && UpToDate(games, f) {
      VisitedKnown(env, games, f);
      assert Persisted(ScanOne(env, s, f).records).gameFiles == Persisted(s.records).gameFiles;
    }
  }

  lemma {:induction false} AllAreHonest(env: Env, s: State, files: seq<DirFile>)
    ensures Honest(s, ScanAll(env, s, files))
  {
    if files != [] {
      hide Persisted, ScanOne;
      AllAreHonest(env, s, files[..|files| - 1]);
      OneIsHonest(env, ScanAll(env, s, files[..|files| - 1]), files[|files| - 1]);
    }
  }

  lemma AddOnOneIsHonest(env: Env, s: State, f: DirFile)
    ensures Honest(s, AddOnOne(env, s, f))
  {
    hide PersistedGame;
    var addOns := s.records.addOnFiles;
    if f.path in addOns && addOns[f.path].stamp == f.stamp {
      assert Persisted(AddOnOne(env, s, f).records).addOnFiles == Persisted(s.records).addOnFiles;
    }
  }

  lemma {:induction false} AddOnsAreHonest(env: Env, s: State, files: seq<DirFile>)
    ensures Honest(s, AddOnAll(env, s, files))
  {
    if files != [] {
      hide Persisted, AddOnOne;
      AddOnsAreHonest(env, s, files[..|files| - 1]);
      AddOnOneIsHonest(env, AddOnAll(env, s, files[..|files| - 1]), files[|files| - 1]);
    }
  }

  lemma AddOnDirectoriesAreHonest(env: Env, s: State, listings: seq<Listed>)
    ensures Honest(s, ScanAddOnDirectories(env, s, listings))
  {
    hide AddOnAll, SeenAddOns, PersistedGame;
    var start := WithAddOns(s, UnseenAddOns(s.records.addOnFiles));
    assert Persisted(start.records).addOnFiles == Persisted(s.records).addOnFiles;
    AddOnsAreHonest(env, start, SeenAddOns(listings));
  }

  lemma PreparedIsHonest(s: State, input: Input)
    ensures Honest(s, Prepared(s, input))
  {
    hide PersistedPrograms, PersistedAddOn;
    assert Persisted(Begun(s).records).gameFiles == Persisted(s.records).gameFiles;
  }

  lemma GatheredIsHonest(env: Env, s: State, input: Input)
    ensures Honest(s, Gathered(env, s, input))
  {
    hide Persisted, Prepared, ScanAddOnDirectories, ScanAll, ScannedFiles;
    PreparedIsHonest(s, input);
    AddOnDirectoriesAreHonest(env, Prepared(s, input), input.addOnListings);
    AllAreHonest(env, ScanAddOnDirectories(env, Prepared(s, input), input.addOnListings),
      ScannedFiles(input.gameListings));
  }

  // ----- the end of a scan

  lemma {:induction false} QuietPrograms(env: Env, path: Path, ps: seq<ProgramRecord>, addOns: seq<Indexed>,
                                         games: seq<Indexed>, disabled: map<nat, seq<Bytes>>)
    requires ProgramReports(env, path, ps, addOns, games, disabled) == []
    ensures RefreshedPrograms(env, ps, addOns, games, disabled) == ps
  {
    hide RefreshUpdate;
    if ps != [] {
      QuietPrograms(env, path, ps[..|ps| - 1], addOns, games, disabled);
      assert RefreshedPrograms(env, ps, addOns, games, disabled)[..|ps| - 1]
        == RefreshedPrograms(env, ps[..|ps| - 1], addOns, games, disabled);
    }
  }

  lemma {:induction false} QuietFiles(env: Env, files: seq<Filed<GameFileRecord>>, addOns: seq<Indexed>,
                                      games: seq<Indexed>, disabled: map<nat, seq<Bytes>>)
    requires RefreshReports(env, files, addOns, games, disabled) == []
    ensures forall i :: 0 <= i < |files| ==>
      RefreshedGame(env, files[i].record, addOns, games, disabled) == files[i].record
  {
    hide ProgramReports, RefreshedPrograms;
    if files != [] {
      var front, last := files[..|files| - 1], files[|files| - 1];
      QuietFiles(env, front, addOns, games, disabled);
      if last.record.isGame && last.record.seen {
        QuietPrograms(env, last.path, last.record.programs, addOns, games, disabled);
      }
      forall i | 0 <= i < |files|
        ensures RefreshedGame(env, files[i].record, addOns, games, disabled) == files[i].record
      {
        if i < |front| {
          assert files[i] == front[i];
        }
      }
    }
  }

  lemma QuietGames(env: Env, m: GameFiles, addOns: seq<Indexed>, games: seq<Indexed>, disabled: map<nat, seq<Bytes>>)
    requires RefreshReports(env, InOrder(m), addOns, games, disabled) == []
    ensures RefreshedGames(env, m, addOns, games, disabled) == m
  {
    hide InOrder, RefreshReports, RefreshedGame;
    QuietFiles(env, InOrder(m), addOns, games, disabled);
    InOrderFiles(m);
    forall p | p in m
      ensures RefreshedGame(env, m[p], addOns, games, disabled) == m[p]
    {
      assert IsFiled(InOrder(m), p);
      var i :| 0 <= i < |InOrder(m)| && InOrder(m)[i].path == p;
    }
  }

  /** Nothing erased and nothing reported: nothing changed. */
  lemma FinishedIsHonest(env: Env, s: State, listingComplete: bool, disabled: map<nat, seq<Bytes>>)
    ensures Honest(s, Finished(env, s, listingComplete, disabled))
  {
    hide InOrder, GameIndex, AddOnIndex, RefreshReports, RefreshedGames, Persisted, KeptGames;
    var kept := if listingComplete then KeptGames(s.records.gameFiles) else s.records.gameFiles;
    var addOns, games := AddOnIndex(InOrder(s.records.addOnFiles)), GameIndex(InOrder(kept));
    if RefreshReports(env, InOrder(kept), addOns, games, disabled) == [] {
      QuietGames(env, kept, addOns, games, disabled);
    }
  }

  /** A scan sets the flag whenever it changes anything that is stored. */
  lemma ScanIsHonest(env: Env, s: State, input: Input)
    ensures Honest(s, Scan(env, s, input))
  {
    hide Persisted, Gathered, Finished;
    GatheredIsHonest(env, s, input);
    FinishedIsHonest(env, Gathered(env, s, input), AllComplete(input.gameListings), input.disabled);
  }

  // ----- loading

  /** Records as they come out of a file. */
  ghost predicate Plain(r: Records) {
    Persisted(r) == r
  }

  lemma {:induction false} LoadedAddOnsArePlain(items: seq<Value>)
    requires AllHave(items, ADD_ON_FILE)
    ensures forall p :: p in AddOnsFrom(items) ==> PersistedAddOn(AddOnsFrom(items)[p]) == AddOnsFrom(items)[p]
  {
    hide Has, StampFrom, EntriesFrom;
    if items != [] {
      LoadedAddOnsArePlain(items[..|items| - 1]);
    }
  }

  predicate PlainPrograms(ps: seq<ProgramRecord>) {
    forall i :: 0 <= i < |ps| ==> ps[i].effective.None?
  }

  lemma PlainProgramsPersist(ps: seq<ProgramRecord>)
    requires PlainPrograms(ps)
    ensures PersistedPrograms(ps) == ps
  {
  }

  lemma ReadProgramsArePlain(v: Value)
    requires Has(v, PROGRAMS)
    ensures PlainPrograms(ProgramsFrom(v))
  {
    hide Has, MetadataFrom;
  }

  lemma {:induction false} LoadedGamesArePlain(items: seq<Value>)
    requires AllHave(items, GAME)
    ensures forall p :: p in GamesFrom(items) ==>
      !GamesFrom(items)[p].seen && PlainPrograms(GamesFrom(items)[p].programs)
  {
    hide Has, StampFrom, EntriesFrom, ProgramsFrom;
    if items != [] {
      LoadedGamesArePlain(items[..|items| - 1]);
      GameParts(items[|items| - 1]);
      ReadProgramsArePlain(items[|items| - 1].second.second.first);
    }
  }

  lemma LoadedIsPlain(v: Value)
    requires Has(v, BODY)
    ensures Plain(BodyFrom(v))
  {
    hide Has, AllHave, AddOnsFrom, GamesFrom, DirectoriesFrom, PersistedPrograms;
    BodyParts(v);
    LoadedAddOnsArePlain(v.first.items);
    LoadedGamesArePlain(v.second.first.items);
    var r := BodyFrom(v);
    forall p | p in r.gameFiles
      ensures PersistedGame(r.gameFiles[p]) == r.gameFiles[p]
    {
      PlainProgramsPersist(r.gameFiles[p].programs);
    }
  }

  lemma AfterLoadIsPlain(file: Option<Bytes>, language: nat)
    ensures Plain(AfterLoad(file, EMPTY, language))
  {
    hide BodyFrom, Decode, Has, HeaderValue, Plain;
    EmptyIsPlain();
    if file.Some? {
      var header := Decode(HEADER, Reader(file.value, 0, true));
      DecodeHas(BODY, header.reader);
      LoadedIsPlain(Decode(BODY, header.reader).value);
    }
  }

  lemma EmptyIsPlain()
    ensures Plain(EMPTY)
  {
  }

  // ----- sessions

  /** The cache object and the file on disk. */
  datatype Session = Session(file: Option<Bytes>, loaded: bool, state: State)

  /** Starting the program: nothing in memory, nothing loaded. */
  function Started(file: Option<Bytes>): Session {
    Session(file, false, State(EMPTY, false, []))
  }

  /** The cache as a scan finds it: loaded on the first use. */
  function Opened(session: Session, language: nat): State {
    if session.loaded then session.state
    else session.state.(records := AfterLoad(session.file, session.state.records, language))
  }

  /** One scan with its beginning and end: loading on the first use, saving if something
      changed. `saved` says whether the file could be replaced. */
  ghost function AfterScan(env: Env, session: Session, input: Input, language: nat, saved: bool): Session
    requires language < TWO_32
  {
    var s := Scan(env, Opened(session, language), input);
    if s.dirty && saved && Fits(s.records) then Session(Some(SaveFile(s.records, language)), true, s.(dirty := false))
    else Session(session.file, true, s)
  }

  /** What is not flagged as changed can be loaded again. */
  ghost predicate FlagIsRight(session: Session, language: nat) {
    if session.loaded
    then !session.state.dirty ==> AfterLoad(session.file, EMPTY, language) == Persisted(session.state.records)
    else session.state.records == EMPTY && !session.state.dirty
  }

  lemma SavedIsRight(r: Records, language: nat)
    requires Fits(r) && language < TWO_32
    ensures AfterLoad(Some(SaveFile(r, language)), EMPTY, language) == Persisted(r)
  {
    hide Fits, SaveFile, LoadFile, Persisted;
    LoadAfterSave(r, language);
  }

  lemma ScanKeepsFlag(env: Env, session: Session, input: Input, language: nat, saved: bool)
    requires language < TWO_32 && FlagIsRight(session, language)
    ensures FlagIsRight(AfterScan(env, session, input, language, saved), language)
  {
    hide Fits, SaveFile, AfterLoad, Persisted, Scan;
    var loaded := Opened(session, language);
    if !session.loaded {
      AfterLoadIsPlain(session.file, language);
    }
    var s := Scan(env, loaded, input);
    ScanIsHonest(env, loaded, input);
    if s.dirty && saved && Fits(s.records) {
      SavedIsRight(s.records, language);
      SamePersisted(s);
    }
  }

  lemma SamePersisted(s: State)
    ensures Persisted(s.(dirty := false).records) == Persisted(s.records)
  {
  }

  datatype ScanStep = ScanStep(env: Env, input: Input, saved: bool)

  ghost function AfterScans(file: Option<Bytes>, steps: seq<ScanStep>, language: nat): Session
    requires language < TWO_32
  {
    if steps == [] then Started(file)
    else
      var last := steps[|steps| - 1];
      AfterScan(last.env, AfterScans(file, steps[..|steps| - 1], language), last.input, language, last.saved)
  }

  /** After any run of scans, stopped or completed, saved or not, over any file systems: if the
      flag is not set, loading the file on disk gives exactly the records in memory. */
  lemma {:induction false} NotDirtyMeansSaved(file: Option<Bytes>, steps: seq<ScanStep>, language: nat)
    requires language < TWO_32
    ensures FlagIsRight(AfterScans(file, steps, language), language)
  {
    if steps != [] {
      hide FlagIsRight, AfterScan;
      var last := steps[|steps| - 1];
      NotDirtyMeansSaved(file, steps[..|steps| - 1], language);
      ScanKeepsFlag(last.env, AfterScans(file, steps[..|steps| - 1], language), last.input, language, last.saved);
    }
  }
}
