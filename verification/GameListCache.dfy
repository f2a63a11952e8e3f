/** The class `GameListCache` of src/nxemu-loader/game_list_cache.cpp: each method is proved to
    compute the function of GameListScan, GameListUpdates or GameListRecords that describes
    it. */
module GameListCache {
  import opened Bytes
  import opened Options
  import opened ByteOrder
  import opened PathOrder
  import opened CacheFormat
  import opened GameListRecords
  import opened GameListUpdates
  import opened GameListScan
  import opened GameListSessions

  class GameListCache {
    const env: Env
    const languageIndex: nat
    var m_loaded: bool
    var m_dirty: bool
    var m_listingComplete: bool
    var m_addOnFiles: AddOnFiles
    var m_gameFiles: GameFiles
    var m_gameDirectories: seq<GameDirectory>
    var m_disabledAddOns: map<nat, seq<Bytes>>
    /** The cache file. */
    var file: Option<Bytes>
    /** What the callback was told. */
    var reports: seq<Report>

    constructor (env: Env, languageIndex: nat, file: Option<Bytes>)
      requires languageIndex < TWO_32
      ensures this.env == env && this.languageIndex == languageIndex && Snapshot() == Started(file)
    {
      this.env, this.languageIndex, this.file := env, languageIndex, file;
      m_loaded, m_dirty, m_listingComplete := false, false, true;
      m_addOnFiles, m_gameFiles, m_gameDirectories, m_disabledAddOns := map[], map[], [], map[];
      reports := [];
    }

    ghost function Stored(): Records
      reads this
    {
      Records(m_addOnFiles, m_gameFiles, m_gameDirectories)
    }

    ghost function View(): State
      reads this
    {
      State(Stored(), m_dirty, reports)
    }

    ghost function Snapshot(): Session
      reads this
    {
      Session(file, m_loaded, View())
    }

    // ----- Load and Save

    /** Everything in the file is taken over, or nothing. */
    method Load()
      modifies this`m_addOnFiles, this`m_gameFiles, this`m_gameDirectories
      ensures Stored() == AfterLoad(file, old(Stored()), languageIndex)
    {
      hide Decode, BodyFrom, Has;
      if file.None? {
        return;
      }
      var reader := new CacheReader(file.value);
      var header := reader.Read(HEADER);
      if header != HeaderValue(languageIndex) {
        return;
      }
      ghost var before := reader.View();
      var body := reader.Read(BODY);
      if !reader.m_ok {
        return;
      }
      DecodeHas(BODY, before);
      var r := BodyFrom(body);
      m_addOnFiles, m_gameFiles, m_gameDirectories := r.addOnFiles, r.gameFiles, r.gameDirectories;
    }

    /** A map walked from its first key to its last. */
    static method Walk<T(!new)>(m: map<Path, T>) returns (files: seq<Filed<T>>)
      ensures files == InOrder(m)
    {
      hide SortedKeys;
      var keys := KeysInOrder(m.Keys);
      SortedKeysAre(m.Keys);
      files := [];
      for i := 0 to |keys|
        invariant |files| == i && forall j :: 0 <= j < i ==> files[j] == InOrder(m)[j]
      {
        assert keys[i] in m;
        files := files + [Filed(keys[i], m[keys[i]])];
      }
    }

    /** Writes everything to another file and renames it; `works` says whether that can be
        done. */
    method Save(works: bool) returns (ok: bool)
      requires Fits(Stored()) && languageIndex < TWO_32
      modifies this`file
      ensures ok == works
      ensures file == if ok then Some(SaveFile(Stored(), languageIndex)) else old(file)
    {
      hide Encode, Has, Fits, AddOnsValue, GamesValue, DirectoriesValue, InOrder, HeaderValue;
      FileHas(Stored(), languageIndex);
      var addOns := Walk(m_addOnFiles);
      var games := Walk(m_gameFiles);
      var writer := new CacheWriter();
      writer.Write(Pair(HeaderValue(languageIndex),
        Pair(AddOnsValue(addOns), Pair(GamesValue(games), DirectoriesValue(m_gameDirectories)))), FILE);
      assert [] + SaveFile(Stored(), languageIndex) == SaveFile(Stored(), languageIndex);
      if !works {
        return false;
      }
      file := Some(writer.m_data);
      return true;
    }

    // ----- the phases

    method BeginScan(disabled: map<nat, seq<Bytes>>)
      modifies this
      ensures m_loaded && m_listingComplete && m_disabledAddOns == disabled && file == old(file)
      ensures View() == Begun(if old(m_loaded) then old(View())
                              else old(View()).(records := AfterLoad(file, old(Stored()), languageIndex)))
    {
      hide AfterLoad;
      if !m_loaded {
        Load();
        m_loaded := true;
      }
      m_disabledAddOns := disabled;
      m_listingComplete := true;
      reports := [];
      ForgetGames();
    }

    method ForgetGames()
      modifies this`m_gameFiles
      ensures m_gameFiles == Unseen(old(m_gameFiles))
    {
      var left := m_gameFiles.Keys;
      while left != {}
        invariant left <= m_gameFiles.Keys == old(m_gameFiles).Keys
        invariant forall p :: p in m_gameFiles ==>
          m_gameFiles[p] == if p in left then old(m_gameFiles)[p] else old(m_gameFiles)[p].(seen := false)
        decreases left
      {
        var p :| p in left;
        m_gameFiles := m_gameFiles[p := m_gameFiles[p].(seen := false)];
        left := left - {p};
      }
    }

    method ForgetAddOns()
      modifies this`m_addOnFiles
      ensures m_addOnFiles == UnseenAddOns(old(m_addOnFiles))
    {
      var left := m_addOnFiles.Keys;
      while left != {}
        invariant left <= m_addOnFiles.Keys == old(m_addOnFiles).Keys
        invariant forall p :: p in m_addOnFiles ==>
          m_addOnFiles[p] == if p in left then old(m_addOnFiles)[p] else old(m_addOnFiles)[p].(seen := false)
        decreases left
      {
        var p :| p in left;
        m_addOnFiles := m_addOnFiles[p := m_addOnFiles[p].(seen := false)];
        left := left - {p};
      }
    }

    method AddOnFile(f: DirFile)
      modifies this`m_addOnFiles, this`m_dirty
      ensures View() == AddOnOne(env, old(View()), f)
    {
      var added := f.path !in m_addOnFiles;
      var record := if added then AddOnFileRecord(FileStamp(0, 0), [], false) else m_addOnFiles[f.path];
      if added || record.stamp != f.stamp {
        record := AddOnFileRecord(f.stamp, env.readAddOns(f.path, f.stamp), record.seen);
        m_dirty := true;
      }
      m_addOnFiles := m_addOnFiles[f.path := record.(seen := true)];
    }

    method AddOnFilesOf(files: seq<DirFile>)
      modifies this`m_addOnFiles, this`m_dirty
      ensures View() == AddOnAll(env, old(View()), files)
    {
      hide AddOnOne;
      for i := 0 to |files|
        invariant View() == AddOnAll(env, old(View()), files[..i])
      {
        AddOnFile(files[i]);
        assert files[..i + 1][..i] == files[..i];
      }
      assert files[..|files|] == files;
    }

    method EraseUnseenAddOns()
      modifies this`m_addOnFiles, this`m_dirty
      ensures m_addOnFiles == KeptAddOns(old(m_addOnFiles))
      ensures m_dirty == (old(m_dirty) || KeptAddOns(old(m_addOnFiles)) != old(m_addOnFiles))
    {
      var left := m_addOnFiles.Keys;
      ghost var erased: set<Path> := {};
      while left != {}
        invariant left <= m_addOnFiles.Keys && erased <= old(m_addOnFiles).Keys && erased !! m_addOnFiles.Keys
        invariant m_addOnFiles.Keys + erased == old(m_addOnFiles).Keys
        invariant forall p :: p in m_addOnFiles ==>
          m_addOnFiles[p] == old(m_addOnFiles)[p] && (p !in left ==> m_addOnFiles[p].seen)
        invariant forall p :: p in erased ==> !old(m_addOnFiles)[p].seen
        invariant m_dirty == (old(m_dirty) || erased != {})
        decreases left
      {
        var p :| p in left;
        if !m_addOnFiles[p].seen {
          m_addOnFiles := m_addOnFiles - {p};
          m_dirty := true;
          erased := erased + {p};
        }
        left := left - {p};
      }
      assert m_addOnFiles == KeptAddOns(old(m_addOnFiles));
      assert erased == {} <==> KeptAddOns(old(m_addOnFiles)) == old(m_addOnFiles);
    }

    method EraseUnseenGames()
      modifies this`m_gameFiles, this`m_dirty
      ensures m_gameFiles == KeptGames(old(m_gameFiles))
      ensures m_dirty == (old(m_dirty) || KeptGames(old(m_gameFiles)) != old(m_gameFiles))
    {
      var left := m_gameFiles.Keys;
      ghost var erased: set<Path> := {};
      while left != {}
        invariant left <= m_gameFiles.Keys && erased <= old(m_gameFiles).Keys && erased !! m_gameFiles.Keys
        invariant m_gameFiles.Keys + erased == old(m_gameFiles).Keys
        invariant forall p :: p in m_gameFiles ==>
          m_gameFiles[p] == old(m_gameFiles)[p] && (p !in left ==> m_gameFiles[p].seen)
        invariant forall p :: p in erased ==> !old(m_gameFiles)[p].seen
        invariant m_dirty == (old(m_dirty) || erased != {})
        decreases left
      {
        var p :| p in left;
        if !m_gameFiles[p].seen {
          m_gameFiles := m_gameFiles - {p};
          m_dirty := true;
          erased := erased + {p};
        }
        left := left - {p};
      }
      assert m_gameFiles == KeptGames(old(m_gameFiles));
      assert erased == {} <==> KeptGames(old(m_gameFiles)) == old(m_gameFiles);
    }

    /** Returns whether the scan goes on. */
    method ScanAddOns(listings: seq<Listed>) returns (more: bool)
      modifies this`m_addOnFiles, this`m_dirty
      ensures View() == ScanAddOnDirectories(env, old(View()), listings)
      ensures more == NoneStopped(listings)
    {
      hide AddOnAll, KeptAddOns, UnseenAddOns;
      ForgetAddOns();
      ghost var start := View();
      var listingComplete := true;
      assert listings[0..] == listings;
      NothingListed(env, start);
      for i := 0 to |listings|
        invariant NoneStopped(listings[..i]) && listingComplete == AllComplete(listings[..i])
        invariant View() == AddOnAll(env, start, SeenAddOns(listings[..i]))
      {
        AddOnFilesOf(listings[i].files);
        OneMoreListed(env, start, listings, i);
        if listings[i].outcome == Stopped {
          StoppedAt(listings, i);
          return false;
        }
        if listings[i].outcome == Incomplete {
          listingComplete := false;
        }
      }
      assert listings[..|listings|] == listings;
      if listingComplete {
        EraseUnseenAddOns();
      }
      return true;
    }

    static lemma NothingListed(env: Env, s: State)
      ensures s == AddOnAll(env, s, SeenAddOns([]))
    {
    }

    static lemma StillNoneStopped(listings: seq<Listed>)
      requires listings != [] && NoneStopped(listings)
      ensures NoneStopped(listings[1..])
    {
    }

    static lemma {:induction false} SeenSnoc(listings: seq<Listed>, i: nat)
      requires i < |listings| && NoneStopped(listings[..i])
      ensures SeenAddOns(listings[..i + 1]) == SeenAddOns(listings[..i]) + listings[i].files
    {
      if i == 0 {
        assert listings[..1][1..] == [] && listings[..0] == [];
        assert listings[..1][0] == listings[0];
        assert listings[0].files + [] == listings[0].files;
      } else {
        assert listings[..i + 1][1..] == listings[1..][..i] && listings[..i][1..] == listings[1..][..i - 1];
        assert listings[..i][0] == listings[0];
        StillNoneStopped(listings[..i]);
        SeenSnoc(listings[1..], i - 1);
      }
    }

    static lemma {:induction false} AddOnConcat(env: Env, s: State, a: seq<DirFile>, b: seq<DirFile>)
      ensures AddOnAll(env, s, a + b) == AddOnAll(env, AddOnAll(env, s, a), b)
    {
      hide AddOnOne;
      if b == [] {
        assert a + b == a;
      } else {
        assert (a + b)[..|a + b| - 1] == a + b[..|b| - 1];
        AddOnConcat(env, s, a, b[..|b| - 1]);
      }
    }

    static lemma OneMoreListed(env: Env, s: State, listings: seq<Listed>, i: nat)
      requires i < |listings| && NoneStopped(listings[..i])
      ensures AddOnAll(env, s, SeenAddOns(listings[..i + 1]))
        == AddOnAll(env, AddOnAll(env, s, SeenAddOns(listings[..i])), listings[i].files)
      ensures NoneStopped(listings[..i + 1]) <==> listings[i].outcome != Stopped
      ensures AllComplete(listings[..i + 1]) <==> AllComplete(listings[..i]) && listings[i].outcome == Complete
    {
      hide AddOnAll, SeenAddOns;
      SeenSnoc(listings, i);
      AddOnConcat(env, s, SeenAddOns(listings[..i]), listings[i].files);
      assert listings[..i + 1] == listings[..i] + [listings[i]];
    }

    static lemma {:induction false} StoppedAt(listings: seq<Listed>, i: nat)
      requires i < |listings| && NoneStopped(listings[..i]) && listings[i].outcome == Stopped
      ensures SeenAddOns(listings) == SeenAddOns(listings[..i + 1]) && !NoneStopped(listings)
    {
      if i > 0 {
        assert listings[..i + 1][1..] == listings[1..][..i];
        assert listings[..i + 1][0] == listings[0] == listings[..i][0];
        assert listings[..i][1..] == listings[1..][..i - 1];
        StillNoneStopped(listings[..i]);
        StoppedAt(listings[1..], i - 1);
      }
    }

    // ----- the games

    /** The question put to the cache before the first file of a list is touched. */
    static predicate MustParse(games: GameFiles, f: DirFile) {
      f.path !in games || (!games[f.path].seen && games[f.path].stamp != f.stamp)
    }

    method WhichToParse(files: seq<DirFile>) returns (parse: seq<bool>)
      ensures |parse| == |files| && forall i :: 0 <= i < |files| ==> parse[i] == MustParse(m_gameFiles, files[i])
    {
      parse := [];
      for i := 0 to |files|
        invariant |parse| == i && forall j :: 0 <= j < i ==> parse[j] == MustParse(m_gameFiles, files[j])
      {
        parse := parse + [MustParse(m_gameFiles, files[i])];
      }
    }

    /** What has not been seen is as it was. */
    static ghost predicate OnlySeenChanged(before: GameFiles, now: GameFiles) {
      && (forall p :: p in before && !Seen(now, p) ==> p in now && now[p] == before[p])
      && (forall p :: p in now && !Seen(now, p) ==> p in before)
    }

    /** The answer from before the loop is still right for a file that has not been seen. */
    static lemma ParseIsRight(before: GameFiles, now: GameFiles, f: DirFile)
      requires OnlySeenChanged(before, now)
      ensures !Seen(now, f.path) ==> MustParse(before, f) == !UpToDate(now, f)
    {
    }

    method ReportProgram(path: Path, index: nat, p: ProgramRecord, changed: bool) returns (r: ProgramRecord)
      modifies this`reports
      ensures r == Reported(p) && reports == old(reports) + [Report(path, index, Overlaid(p), changed)]
    {
      r := p;
      if r.effective.None? {
        var effective := p.base;
        if p.update.title != [] {
          effective := effective.(title := p.update.title, titleStatus := SUCCESS);
        }
        if p.update.icon != [] {
          effective := effective.(icon := p.update.icon, iconStatus := SUCCESS);
        }
        if p.update.version != [] {
          effective := effective.(displayVersion := p.update.version, versionStatus := SUCCESS);
        }
        r := r.(effective := Some(effective));
      }
      reports := reports + [Report(path, index, r.effective.value, changed)];
    }

    method ReportGame(path: Path, ps: seq<ProgramRecord>, changed: bool) returns (r: seq<ProgramRecord>)
      modifies this`reports
      ensures r == ReportedPrograms(ps) && reports == old(reports) + ReportsOf(path, ReportedPrograms(ps), changed)
    {
      hide Reported, Overlaid;
      r := [];
      for i := 0 to |ps|
        invariant |r| == i && forall j :: 0 <= j < i ==> r[j] == Reported(ps[j])
        invariant reports == old(reports) + ReportsOf(path, ReportedPrograms(ps), changed)[..i]
      {
        SameFace(ps[i]);
        var p := ReportProgram(path, i, ps[i], changed);
        r := r + [p];
      }
      assert ReportsOf(path, ReportedPrograms(ps), changed)[..|ps|] == ReportsOf(path, ReportedPrograms(ps), changed);
    }

    static lemma SameFace(p: ProgramRecord)
      ensures Overlaid(Reported(p)) == Overlaid(p)
    {
      hide Overlay;
    }

    /** `ParseGameFile` into an empty record. */
    method ParseGameFile(f: DirFile) returns (r: GameFileRecord)
      ensures r == ParsedRecord(env, f)
    {
      r := GameFileRecord(f.stamp, false, [], [], true);
      match env.parse(f.path, f.stamp)
      case NotAGame(addOns) => r := r.(addOns := addOns);
      case AGame(programs, addOns) => r := r.(isGame := true, programs := NewPrograms(programs), addOns := addOns);
    }

    method ScanFile(f: DirFile, parse: bool)
      requires !Seen(m_gameFiles, f.path) ==> parse == !UpToDate(m_gameFiles, f)
      modifies this`m_gameFiles, this`m_dirty, this`reports
      ensures View() == ScanOne(env, old(View()), f)
    {
      hide ReportedPrograms, ReportsOf, NewPrograms;
      if f.path in m_gameFiles && m_gameFiles[f.path].seen {
        return;
      }
      var record := GameFileRecord(FileStamp(0, 0), false, [], [], true);
      if f.path in m_gameFiles {
        record := m_gameFiles[f.path].(seen := true);
      }
      if parse {
        record := ParseGameFile(f);
        m_dirty := true;
      }
      if record.isGame {
        var shown := ReportGame(f.path, record.programs, parse);
        record := record.(programs := shown);
      }
      m_gameFiles := m_gameFiles[f.path := record];
    }

    /** Which files to parse is decided before the loop; a request to stop comes before the
        file at `scanned`, if there is one. */
    method ScanGameFiles(files: seq<DirFile>, scanned: nat) returns (more: bool)
      modifies this`m_gameFiles, this`m_dirty, this`reports
      ensures more == (scanned >= |files|)
      ensures View() == ScanAll(env, old(View()), if more then files else files[..scanned])
    {
      hide ScanOne, UpToDate;
      var parse := WhichToParse(files);
      for i := 0 to |files|
        invariant i <= scanned
        invariant View() == ScanAll(env, old(View()), files[..i])
        invariant OnlySeenChanged(old(m_gameFiles), m_gameFiles)
      {
        if i == scanned {
          return false;
        }
        ParseIsRight(old(m_gameFiles), m_gameFiles, files[i]);
        OnlySeenChanges(env, old(m_gameFiles), View(), files[i]);
        ScanFile(files[i], parse[i]);
        assert files[..i + 1][..i] == files[..i];
      }
      assert files[..|files|] == files;
      return true;
    }

    static lemma OnlySeenChanges(env: Env, before: GameFiles, s: State, f: DirFile)
      requires OnlySeenChanged(before, s.records.gameFiles)
      ensures OnlySeenChanged(before, ScanOne(env, s, f).records.gameFiles)
    {
      hide ReportedPrograms, ReportsOf, NewPrograms;
    }

    // ----- the end of a scan

    static method IndexEntries(path: Path, stamp: FileStamp, entries: seq<AddOnEntry>, before: seq<Indexed>)
      returns (index: seq<Indexed>)
      ensures index == before + FromEntries(path, stamp, entries)
    {
      index := before;
      for i := 0 to |entries|
        invariant index == before + FromEntries(path, stamp, entries[..i])
      {
        if IsControlUpdate(entries[i]) {
          index := index + [Indexed(entries[i].titleId, UpdateCandidate(path, stamp, entries[i].version))];
        }
        assert entries[..i + 1][..i] == entries[..i];
      }
      assert entries[..|entries|] == entries;
    }

    method IndexAddOns() returns (index: seq<Indexed>)
      ensures index == AddOnIndex(InOrder(m_addOnFiles))
    {
      hide InOrder, FromEntries;
      var files := Walk(m_addOnFiles);
      index := [];
      for i := 0 to |files|
        invariant index == AddOnIndex(files[..i])
      {
        if files[i].record.seen {
          index := IndexEntries(files[i].path, files[i].record.stamp, files[i].record.entries, index);
        }
        assert files[..i + 1][..i] == files[..i];
      }
      assert files[..|files|] == files;
    }

    method IndexGames() returns (index: seq<Indexed>)
      ensures index == GameIndex(InOrder(m_gameFiles))
    {
      hide InOrder, FromEntries;
      var files := Walk(m_gameFiles);
      index := [];
      for i := 0 to |files|
        invariant index == GameIndex(files[..i])
      {
        if files[i].record.seen {
          index := IndexEntries(files[i].path, files[i].record.stamp, files[i].record.addOns, index);
        }
        assert files[..i + 1][..i] == files[..i];
      }
      assert files[..|files|] == files;
    }

    /** The candidates of one index, after those of an earlier one. */
    static method Consider(candidates: seq<UpdateCandidate>, disabled: seq<Bytes>, best: Option<UpdateCandidate>,
                           ghost before: seq<UpdateCandidate>)
      returns (r: Option<UpdateCandidate>)
      requires best == Best(before, disabled)
      ensures r == Best(before + candidates, disabled)
    {
      hide IsUpdateDisabled;
      r := best;
      assert before + candidates[..0] == before;
      for i := 0 to |candidates|
        invariant r == Best(before + candidates[..i], disabled)
      {
        assert (before + candidates[..i + 1])[..|before| + i] == before + candidates[..i];
        if !IsUpdateDisabled(disabled, candidates[i].version) {
          if r.None? || candidates[i].version > r.value.version {
            r := Some(candidates[i]);
          }
        }
      }
      assert candidates[..|candidates|] == candidates;
    }

    method ChooseUpdate(base: Metadata, addOns: seq<Indexed>, games: seq<Indexed>)
      returns (best: Option<UpdateCandidate>)
      ensures best == Chosen(base, addOns, games, m_disabledAddOns)
    {
      hide EqualRange, Best;
      var programId := ProgramIdOf(base);
      var disabled := DisabledFor(base, m_disabledAddOns);
      best := None;
      NothingToChoose(disabled);
      if programId != 0 {
        best := Consider(EqualRange(addOns, UpdateTitleOf(programId)), disabled, best, []);
        assert [] + EqualRange(addOns, UpdateTitleOf(programId)) == EqualRange(addOns, UpdateTitleOf(programId));
        best := Consider(EqualRange(games, UpdateTitleOf(programId)), disabled, best,
          EqualRange(addOns, UpdateTitleOf(programId)));
      }
    }

    static lemma NothingToChoose(disabled: seq<Bytes>)
      ensures Best([], disabled) == None
    {
    }

    static method ComputeFingerprint(best: Option<UpdateCandidate>) returns (value: nat)
      ensures value == FingerprintOf(best)
    {
      hide Hash, LittleEndian, TimeBits;
      var fingerprint := new Fingerprint();
      if best.Some? {
        fingerprint.AddString(best.value.path);
        fingerprint.AddNumber(best.value.stamp.size);
        fingerprint.AddNumber(TimeBits(best.value.stamp.modifiedTime));
        fingerprint.AddNumber(best.value.version);
        FingerprintStream(best.value);
      }
      value := fingerprint.m_hash;
    }

    static lemma FingerprintStream(u: UpdateCandidate)
      ensures [] + LittleEndian(|u.path|, 8) + u.path + LittleEndian(u.stamp.size, 8)
                + LittleEndian(TimeBits(u.stamp.modifiedTime), 8) + LittleEndian(u.version, 8) == Stream(Some(u))
    {
      hide LittleEndian, TimeBits;
      assert [] + LittleEndian(|u.path|, 8) == LittleEndian(|u.path|, 8);
    }

    method RefreshOne(p: ProgramRecord, addOns: seq<Indexed>, games: seq<Indexed>)
      returns (r: ProgramRecord, changed: bool)
      ensures Refreshed(r, changed) == RefreshUpdate(env.readUpdate, p, addOns, games, m_disabledAddOns)
    {
      hide Chosen, FingerprintOf;
      var best := ChooseUpdate(p.base, addOns, games);
      var value := ComputeFingerprint(best);
      if p.updateValid && p.updateFingerprint == value {
        return p, false;
      }
      r := p.(update := NO_UPDATE);
      if best.Some? {
        r := r.(update := env.readUpdate(best.value.path, best.value.stamp, UpdateTitleOf(ProgramIdOf(p.base))));
      }
      r := r.(updateValid := true, updateFingerprint := value, effective := None);
      changed := true;
    }

    method RefreshPrograms(path: Path, ps: seq<ProgramRecord>, addOns: seq<Indexed>, games: seq<Indexed>)
      returns (r: seq<ProgramRecord>)
      modifies this`m_dirty, this`reports
      ensures r == RefreshedPrograms(env, ps, addOns, games, m_disabledAddOns)
      ensures reports == old(reports) + ProgramReports(env, path, ps, addOns, games, m_disabledAddOns)
      ensures m_dirty == (old(m_dirty) || ProgramReports(env, path, ps, addOns, games, m_disabledAddOns) != [])
    {
      hide RefreshUpdate, Reported, Overlay;
      r := [];
      for i := 0 to |ps|
        invariant |r| == i && forall j :: 0 <= j < i ==>
          r[j] == RefreshedProgram(env, ps[j], addOns, games, m_disabledAddOns)
        invariant reports == old(reports) + ProgramReports(env, path, ps[..i], addOns, games, m_disabledAddOns)
        invariant m_dirty == (old(m_dirty) || ProgramReports(env, path, ps[..i], addOns, games, m_disabledAddOns) != [])
      {
        var p, changed := RefreshOne(ps[i], addOns, games);
        FreshFace(env, ps[i], addOns, games, m_disabledAddOns);
        if changed {
          m_dirty := true;
          p := ReportProgram(path, i, p, true);
        } else {
          p := ps[i];
        }
        r := r + [p];
        assert ps[..i + 1][..i] == ps[..i];
      }
      assert ps[..|ps|] == ps;
    }

    static lemma FreshFace(env: Env, p: ProgramRecord, addOns: seq<Indexed>, games: seq<Indexed>,
                           disabled: map<nat, seq<Bytes>>)
      ensures var r := RefreshUpdate(env.readUpdate, p, addOns, games, disabled);
              r.changed ==> Overlaid(r.program) == Overlay(r.program.base, r.program.update)
    {
      hide Chosen, FingerprintOf, Overlay, UpdateFrom;
    }

    /** Some of the files already refreshed, in the order of the paths. */
    static ghost predicate RefreshedUpTo(env: Env, was: GameFiles, now: GameFiles, files: seq<Filed<GameFileRecord>>,
                                         i: nat, addOns: seq<Indexed>, games: seq<Indexed>,
                                         disabled: map<nat, seq<Bytes>>)
      requires i <= |files|
    {
      && now.Keys == was.Keys
      && (forall j :: 0 <= j < |files| ==> files[j].path in now)
      && (forall j :: 0 <= j < i ==> now[files[j].path] == RefreshedGame(env, files[j].record, addOns, games, disabled))
      && (forall j :: i <= j < |files| ==> now[files[j].path] == files[j].record)
    }

    method RefreshGames(addOns: seq<Indexed>, games: seq<Indexed>)
      modifies this`m_dirty, this`reports, this`m_gameFiles
      ensures m_gameFiles == RefreshedGames(env, old(m_gameFiles), addOns, games, m_disabledAddOns)
      ensures var told := RefreshReports(env, InOrder(old(m_gameFiles)), addOns, games, m_disabledAddOns);
              reports == old(reports) + told && m_dirty == (old(m_dirty) || told != [])
    {
      hide InOrder, RefreshedPrograms, ProgramReports, RefreshReports, FileReports, RefreshedGame, RefreshedUpTo,
           RefreshedGames, FiledAs, Distinct;
      var files := Walk(m_gameFiles);
      InOrderFiles(m_gameFiles);
      RefreshedNone(env, m_gameFiles, files, addOns, games, m_disabledAddOns);
      ToldNothing(env, reports, files, addOns, games, m_disabledAddOns);
      for i := 0 to |files|
        invariant RefreshedUpTo(env, old(m_gameFiles), m_gameFiles, files, i, addOns, games, m_disabledAddOns)
        invariant reports == old(reports) + RefreshReports(env, files[..i], addOns, games, m_disabledAddOns)
        invariant m_dirty == (old(m_dirty) || RefreshReports(env, files[..i], addOns, games, m_disabledAddOns) != [])
      {
        ghost var before := m_gameFiles;
        ToldSoFar(env, old(reports), files, i, addOns, games, m_disabledAddOns);
        NotYetRefreshed(env, old(m_gameFiles), m_gameFiles, files, i, addOns, games, m_disabledAddOns);
        RefreshFile(files[i], addOns, games);
        RefreshedNext(env, old(m_gameFiles), before, files, i, addOns, games, m_disabledAddOns);
      }
      assert files[..|files|] == files;
      RefreshedAll(env, old(m_gameFiles), m_gameFiles, files, addOns, games, m_disabledAddOns);
    }

    static function FileReports(env: Env, f: Filed<GameFileRecord>, addOns: seq<Indexed>, games: seq<Indexed>,
                                disabled: map<nat, seq<Bytes>>): seq<Report>
    {
      if f.record.isGame && f.record.seen then ProgramReports(env, f.path, f.record.programs, addOns, games, disabled)
        else []
    }

    static lemma ToldSoFar(env: Env, before: seq<Report>, files: seq<Filed<GameFileRecord>>, i: nat,
                           addOns: seq<Indexed>, games: seq<Indexed>, disabled: map<nat, seq<Bytes>>)
      requires i < |files|
      ensures var told := RefreshReports(env, files[..i], addOns, games, disabled);
              var next := RefreshReports(env, files[..i + 1], addOns, games, disabled);
              && before + next == (before + told) + FileReports(env, files[i], addOns, games, disabled)
              && (next == [] <==> told == [] && FileReports(env, files[i], addOns, games, disabled) == [])
    {
      hide ProgramReports;
      assert files[..i + 1][..i] == files[..i];
    }

    static lemma ToldNothing(env: Env, before: seq<Report>, files: seq<Filed<GameFileRecord>>,
                             addOns: seq<Indexed>, games: seq<Indexed>, disabled: map<nat, seq<Bytes>>)
      ensures RefreshReports(env, files[..0], addOns, games, disabled) == [] && before + [] == before
    {
    }

    method RefreshFile(f: Filed<GameFileRecord>, addOns: seq<Indexed>, games: seq<Indexed>)
      requires f.path in m_gameFiles && m_gameFiles[f.path] == f.record
      modifies this`m_dirty, this`reports, this`m_gameFiles
      ensures m_gameFiles == old(m_gameFiles)[f.path := RefreshedGame(env, f.record, addOns, games, m_disabledAddOns)]
      ensures var told := FileReports(env, f, addOns, games, m_disabledAddOns);
              reports == old(reports) + told && m_dirty == (old(m_dirty) || told != [])
    {
      hide RefreshedPrograms, ProgramReports;
      if f.record.isGame && f.record.seen {
        var ps := RefreshPrograms(f.path, f.record.programs, addOns, games);
        m_gameFiles := m_gameFiles[f.path := m_gameFiles[f.path].(programs := ps)];
      } else {
        assert m_gameFiles == m_gameFiles[f.path := f.record];
      }
    }

    static lemma RefreshedNone(env: Env, was: GameFiles, files: seq<Filed<GameFileRecord>>, addOns: seq<Indexed>,
                               games: seq<Indexed>, disabled: map<nat, seq<Bytes>>)
      requires files == InOrder(was)
      ensures RefreshedUpTo(env, was, was, files, 0, addOns, games, disabled)
    {
      hide RefreshedGame, InOrder;
      InOrderFiles(was);
    }

    static lemma NotYetRefreshed(env: Env, was: GameFiles, now: GameFiles, files: seq<Filed<GameFileRecord>>, i: nat,
                                 addOns: seq<Indexed>, games: seq<Indexed>, disabled: map<nat, seq<Bytes>>)
      requires i < |files| && RefreshedUpTo(env, was, now, files, i, addOns, games, disabled)
      ensures files[i].path in now && now[files[i].path] == files[i].record
    {
      hide RefreshedGame;
    }

    static lemma RefreshedNext(env: Env, was: GameFiles, now: GameFiles, files: seq<Filed<GameFileRecord>>, i: nat,
                               addOns: seq<Indexed>, games: seq<Indexed>, disabled: map<nat, seq<Bytes>>)
      requires i < |files| && Distinct(files) && RefreshedUpTo(env, was, now, files, i, addOns, games, disabled)
      ensures RefreshedUpTo(env, was, now[files[i].path := RefreshedGame(env, files[i].record, addOns, games,
        disabled)], files, i + 1, addOns, games, disabled)
    {
      hide RefreshedGame;
    }

    static lemma RefreshedAll(env: Env, was: GameFiles, now: GameFiles, files: seq<Filed<GameFileRecord>>,
                              addOns: seq<Indexed>, games: seq<Indexed>, disabled: map<nat, seq<Bytes>>)
      requires files == InOrder(was) && RefreshedUpTo(env, was, now, files, |files|, addOns, games, disabled)
      ensures now == RefreshedGames(env, was, addOns, games, disabled)
    {
      hide RefreshedGame, InOrder;
      InOrderFiles(was);
      forall p | p in was
        ensures p in now && now[p] == RefreshedGame(env, was[p], addOns, games, disabled)
      {
        assert IsFiled(files, p);
        var i :| 0 <= i < |files| && files[i].path == p;
      }
    }

    /** A completed scan forgets what is gone and looks for updates. */
    method Conclude()
      modifies this`m_dirty, this`reports, this`m_gameFiles
      ensures View() == Finished(env, old(View()), m_listingComplete, m_disabledAddOns)
    {
      hide InOrder, GameIndex, AddOnIndex, RefreshReports, RefreshedGames, KeptGames;
      var addOnIndex := IndexAddOns();
      if m_listingComplete {
        EraseUnseenGames();
      }
      var gameIndex := IndexGames();
      RefreshGames(addOnIndex, gameIndex);
    }

    /** `works` says whether the file can be replaced. */
    method FinishScan(complete: bool, works: bool) returns (r: bool)
      requires languageIndex < TWO_32
      modifies this
      ensures r == complete && m_loaded == old(m_loaded)
      ensures var s := if complete then Finished(env, old(View()), old(m_listingComplete), old(m_disabledAddOns))
        else old(View());
              Snapshot() == if s.dirty && works && Fits(s.records)
                            then Session(Some(SaveFile(s.records, languageIndex)), m_loaded, s.(dirty := false))
                            else Session(old(file), m_loaded, s)
    {
      hide Finished, Fits, SaveFile;
      if complete {
        Conclude();
      }
      if m_dirty && works && Fits(Records(m_addOnFiles, m_gameFiles, m_gameDirectories)) {
        var saved := Save(true);
        m_dirty := false;
      }
      return complete;
    }

    method ScanGameDirectories(listings: seq<Listed>) returns (complete: bool)
      modifies this`m_gameFiles, this`m_dirty, this`reports, this`m_listingComplete
      ensures complete == AllRan(listings)
      ensures complete ==> m_listingComplete == (old(m_listingComplete) && AllComplete(listings))
      ensures View() == ScanAll(env, old(View()), ScannedFiles(listings))
    {
      hide ScanAll;
      NothingScanned(env, View(), listings);
      for i := 0 to |listings|
        invariant AllRan(listings[..i]) && m_listingComplete == (old(m_listingComplete) && AllComplete(listings[..i]))
        invariant View() == ScanAll(env, old(View()), ScannedFiles(listings[..i]))
      {
        OneMoreDirectory(env, old(View()), listings, i);
        if listings[i].outcome == Stopped {
          return false;
        }
        if listings[i].outcome == Incomplete {
          m_listingComplete := false;
        }
        var more := ScanGameFiles(listings[i].files, listings[i].scanned);
        if !more {
          return false;
        }
      }
      assert listings[..|listings|] == listings;
      return true;
    }

    static lemma NothingScanned(env: Env, s: State, listings: seq<Listed>)
      ensures s == ScanAll(env, s, ScannedFiles(listings[..0])) && AllRan(listings[..0]) && AllComplete(listings[..0])
    {
    }

    static lemma {:induction false} ScanConcat(env: Env, s: State, a: seq<DirFile>, b: seq<DirFile>)
      ensures ScanAll(env, s, a + b) == ScanAll(env, ScanAll(env, s, a), b)
    {
      hide ScanOne;
      if b == [] {
        assert a + b == a;
      } else {
        assert (a + b)[..|a + b| - 1] == a + b[..|b| - 1];
        ScanConcat(env, s, a, b[..|b| - 1]);
      }
    }

    static function Part(l: Listed): seq<DirFile> {
      if l.outcome == Stopped then [] else if l.scanned < |l.files| then l.files[..l.scanned] else l.files
    }

    static lemma StillRan(listings: seq<Listed>)
      requires listings != [] && AllRan(listings)
      ensures AllRan(listings[1..])
    {
    }

    /** Directories that ran to their end, and then one more. */
    static lemma {:induction false} ScannedSplit(listings: seq<Listed>, i: nat)
      requires i < |listings| && AllRan(listings[..i])
      ensures ScannedFiles(listings[..i + 1]) == ScannedFiles(listings[..i]) + Part(listings[i])
      ensures !Ran(listings[i]) ==> ScannedFiles(listings) == ScannedFiles(listings[..i + 1])
    {
      if i == 0 {
        assert listings[..1][1..] == [] && listings[..0] == [];
        assert listings[..1][0] == listings[0];
        assert listings[0].files + [] == listings[0].files;
      } else {
        assert listings[..i + 1][1..] == listings[1..][..i] && listings[..i][1..] == listings[1..][..i - 1];
        assert listings[..i][0] == listings[0] == listings[..i + 1][0];
        StillRan(listings[..i]);
        ScannedSplit(listings[1..], i - 1);
      }
    }

    static lemma OneMoreDirectory(env: Env, s: State, listings: seq<Listed>, i: nat)
      requires i < |listings| && AllRan(listings[..i])
      ensures ScanAll(env, s, ScannedFiles(listings[..i + 1]))
        == ScanAll(env, ScanAll(env, s, ScannedFiles(listings[..i])), Part(listings[i]))
      ensures listings[i].outcome == Stopped ==>
        ScanAll(env, s, ScannedFiles(listings)) == ScanAll(env, s, ScannedFiles(listings[..i]))
      ensures !Ran(listings[i]) ==> ScannedFiles(listings) == ScannedFiles(listings[..i + 1]) && !AllRan(listings)
      ensures AllRan(listings[..i + 1]) <==> Ran(listings[i])
      ensures AllComplete(listings[..i + 1]) <==> AllComplete(listings[..i]) && listings[i].outcome == Complete
    {
      hide ScanAll, ScannedFiles;
      ScannedSplit(listings, i);
      ScanConcat(env, s, ScannedFiles(listings[..i]), Part(listings[i]));
      assert listings[..i + 1] == listings[..i] + [listings[i]];
      assert listings[i].outcome == Stopped ==> ScannedFiles(listings[..i]) + [] == ScannedFiles(listings[..i]);
    }

    /** The whole of `Scan`, as a session sees it. */
    method Scan(input: Input, works: bool) returns (complete: bool)
      requires languageIndex < TWO_32
      modifies this
      ensures complete == Completed(input)
      ensures Snapshot() == AfterScan(env, old(Snapshot()), input, languageIndex, works)
    {
      hide AfterLoad, ScanAddOnDirectories, ScanAll, ScannedFiles, Finished, Fits, SaveFile, Unseen, AllRan,
           AllComplete, NoneStopped;
      BeginScan(input.disabled);
      if m_gameDirectories != input.directories {
        m_gameDirectories := input.directories;
        m_dirty := true;
      }
      complete := ScanAddOns(input.addOnListings);
      if complete {
        complete := ScanGameDirectories(input.gameListings);
      }
      complete := FinishScan(complete, works);
    }
  }
}
