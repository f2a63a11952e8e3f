/** What the cache is for (src/nxemu-loader/game_list_cache.cpp:642-973, 1101-1153): scanning again
    what was scanned to its end parses no file, reads no update, reports nothing as changed and
    leaves nothing to save. */
module GameListQuiet {
  import opened Bytes
  import opened Options
  import opened PathOrder
  import opened CacheFormat
  import opened GameListRecords
  import opened GameListUpdates
  import opened GameListScan
  import opened GameListAgreement
  import opened GameListSessions

  // ----- the stamps of a listing

  /** A path has the same stamp wherever it is listed. */
  predicate OneStamp(files: seq<DirFile>) {
    forall i, j :: 0 <= i < |files| && 0 <= j < |files| && files[i].path == files[j].path ==>
      files[i].stamp == files[j].stamp
  }

  function FirstStamps(files: seq<DirFile>): map<Path, FileStamp> {
    if files == [] then map[]
    else
      var front, last := FirstStamps(files[..|files| - 1]), files[|files| - 1];
      if last.path in front then front else front[last.path := last.stamp]
  }

  lemma {:induction false} OneOfStamps(files: seq<DirFile>, i: nat)
    requires OneStamp(files) && i < |files|
    ensures files[i].path in FirstStamps(files) && FirstStamps(files)[files[i].path] == files[i].stamp
  {
    var front := files[..|files| - 1];
    if i < |front| {
      OneOfStamps(front, i);
    } else if files[i].path in FirstStamps(front) {
      var j := Listed(front, files[i].path);
      OneOfStamps(front, j);
    }
  }

  lemma {:induction false} Listed(files: seq<DirFile>, p: Path) returns (i: nat)
    requires p in FirstStamps(files)
    ensures i < |files| && files[i].path == p
  {
    var front := files[..|files| - 1];
    if p in FirstStamps(front) {
      i := Listed(front, p);
    } else {
      i := |front|;
    }
  }

  // ----- what is remembered of the files

  function Stamps(games: GameFiles): map<Path, FileStamp> {
    map p | p in games :: games[p].stamp
  }

  function SeenStamps(games: GameFiles): map<Path, FileStamp> {
    map p | p in games && games[p].seen :: games[p].stamp
  }

  function AddOnStamps(addOns: AddOnFiles): map<Path, FileStamp> {
    map p | p in addOns :: addOns[p].stamp
  }

  function SeenAddOnStamps(addOns: AddOnFiles): map<Path, FileStamp> {
    map p | p in addOns && addOns[p].seen :: addOns[p].stamp
  }

  predicate Within(some: map<Path, FileStamp>, all: map<Path, FileStamp>) {
    forall p :: p in some ==> p in all && all[p] == some[p]
  }

  // ----- the pass over the game files

  lemma VisitedMark(env: Env, games: GameFiles, f: DirFile)
    ensures var r := Visited(env, games, f);
            && r.stamp == f.stamp && r.seen
            && SeenStamps(games[f.path := r]) == SeenStamps(games)[f.path := f.stamp]
            && Stamps(games[f.path := r]) == Stamps(games)[f.path := f.stamp]
  {
  }

  /** A pass marks every file with the stamp of its first mention. */
  lemma {:induction false} PassMarks(env: Env, s: State, files: seq<DirFile>)
    requires SeenStamps(s.records.gameFiles) == map[]
    ensures SeenStamps(ScanAll(env, s, files).records.gameFiles) == FirstStamps(files)
  {
    if files != [] {
      var front, f := files[..|files| - 1], files[|files| - 1];
      PassMarks(env, s, front);
      var games := ScanAll(env, s, front).records.gameFiles;
      VisitedMark(env, games, f);
      hide Visited, SeenStamps;
      SeenIs(games, f.path);
    }
  }

  lemma SeenIs(games: GameFiles, p: Path)
    ensures Seen(games, p) <==> p in SeenStamps(games)
  {
  }

  predicate AllUnchanged(reports: seq<Report>) {
    forall k :: 0 <= k < |reports| ==> !reports[k].changed
  }

  /** Files that are all known with their stamps are not parsed and not told as changed. */
  lemma {:induction false} QuietPass(env: Env, s: State, files: seq<DirFile>)
    requires SeenStamps(s.records.gameFiles) == map[] && Within(FirstStamps(files), Stamps(s.records.gameFiles))
    requires AllUnchanged(s.reports)
    ensures var s' := ScanAll(env, s, files);
            && s'.dirty == s.dirty && AllUnchanged(s'.reports)
            && Stamps(s'.records.gameFiles) == Stamps(s.records.gameFiles)
  {
    if files != [] {
      var front, f := files[..|files| - 1], files[|files| - 1];
      PassMarks(env, s, front);
      hide SeenStamps, Stamps;
      QuietPass(env, s, front);
      var middle := ScanAll(env, s, front);
      hide ScanAll;
      SeenIs(middle.records.gameFiles, f.path);
      QuietOne(env, middle, f);
    }
  }

  lemma QuietOne(env: Env, s: State, f: DirFile)
    requires AllUnchanged(s.reports)
    requires !Seen(s.records.gameFiles, f.path) ==>
               f.path in Stamps(s.records.gameFiles) && Stamps(s.records.gameFiles)[f.path] == f.stamp
    ensures var s' := ScanOne(env, s, f);
            && s'.dirty == s.dirty && AllUnchanged(s'.reports)
            && Stamps(s'.records.gameFiles) == Stamps(s.records.gameFiles)
  {
    VisitedMark(env, s.records.gameFiles, f);
    hide Visited;
  }

  // ----- the pass over the add-on files

  lemma AddOnMark(env: Env, s: State, f: DirFile)
    ensures var addOns, addOns' := s.records.addOnFiles, AddOnOne(env, s, f).records.addOnFiles;
            && SeenAddOnStamps(addOns') == SeenAddOnStamps(addOns)[f.path := f.stamp]
            && AddOnStamps(addOns') == AddOnStamps(addOns)[f.path := f.stamp]
    ensures f.path in AddOnStamps(s.records.addOnFiles) && AddOnStamps(s.records.addOnFiles)[f.path] == f.stamp ==>
              AddOnOne(env, s, f).dirty == s.dirty
  {
  }

  lemma {:induction false} AddOnPassMarks(env: Env, s: State, files: seq<DirFile>)
    requires SeenAddOnStamps(s.records.addOnFiles) == map[] && OneStamp(files)
    ensures var addOns := AddOnAll(env, s, files).records.addOnFiles;
            SeenAddOnStamps(addOns) == FirstStamps(files) && Within(FirstStamps(files), AddOnStamps(addOns))
  {
    if files != [] {
      var front, f := files[..|files| - 1], files[|files| - 1];
      AddOnPassMarks(env, s, front);
      OneOfStamps(files, |front|);
      AddOnMark(env, AddOnAll(env, s, front), f);
      hide SeenAddOnStamps, AddOnStamps, AddOnOne, OneStamp;
      if f.path in FirstStamps(front) {
        assert FirstStamps(front)[f.path := f.stamp] == FirstStamps(files);
      }
    }
  }

  lemma {:induction false} QuietAddOns(env: Env, s: State, files: seq<DirFile>)
    requires OneStamp(files) && Within(FirstStamps(files), AddOnStamps(s.records.addOnFiles))
    ensures var s' := AddOnAll(env, s, files);
            s'.dirty == s.dirty && AddOnStamps(s'.records.addOnFiles) == AddOnStamps(s.records.addOnFiles)
  {
    if files != [] {
      var front, f := files[..|files| - 1], files[|files| - 1];
      OneOfStamps(files, |front|);
      hide AddOnStamps, AddOnOne, OneStamp;
      assert OneStamp(front) by { FrontHasOneStamp(files); }
      QuietAddOns(env, s, front);
      AddOnMark(env, AddOnAll(env, s, front), f);
      var stamps := AddOnStamps(s.records.addOnFiles);
      assert stamps[f.path := f.stamp] == stamps;
    }
  }

  lemma FrontHasOneStamp(files: seq<DirFile>)
    requires files != [] && OneStamp(files)
    ensures OneStamp(files[..|files| - 1])
  {
  }

  // ----- what a completed scan leaves

  /** The update remembered for the program is known by the fingerprint of the one to choose. */
  predicate IsRemembered(p: ProgramRecord, addOns: seq<Indexed>, games: seq<Indexed>, disabled: map<nat, seq<Bytes>>) {
    p.updateValid && p.updateFingerprint == FingerprintOf(Chosen(p.base, addOns, games, disabled))
  }

  predicate AllRemembered(ps: seq<ProgramRecord>, addOns: seq<Indexed>, games: seq<Indexed>,
                          disabled: map<nat, seq<Bytes>>) {
    forall i :: 0 <= i < |ps| ==> IsRemembered(ps[i], addOns, games, disabled)
  }

  predicate GamesRemember(m: GameFiles, addOns: seq<Indexed>, games: seq<Indexed>, disabled: map<nat, seq<Bytes>>) {
    forall p :: p in m && m[p].isGame && m[p].seen ==> AllRemembered(m[p].programs, addOns, games, disabled)
  }

  ghost predicate AddOnsCovered(addOns: AddOnFiles, listings: seq<Listed>) {
    && SeenAddOnStamps(addOns) == FirstStamps(SeenAddOns(listings))
    && (AllComplete(listings) ==> SeenAddOnStamps(addOns) == AddOnStamps(addOns))
  }

  ghost predicate GamesCovered(games: GameFiles, listings: seq<Listed>) {
    && SeenStamps(games) == FirstStamps(ScannedFiles(listings))
    && (AllComplete(listings) ==> SeenStamps(games) == Stamps(games))
  }

  /** Everything listed is known with its stamp, nothing else is left where the listings were
      complete, and every update is remembered. */
  ghost predicate Covered(r: Records, input: Input) {
    && r.gameDirectories == input.directories
    && AddOnsCovered(r.addOnFiles, input.addOnListings)
    && GamesCovered(r.gameFiles, input.gameListings)
    && GamesRemember(r.gameFiles, AddOnIndex(InOrder(r.addOnFiles)), GameIndex(InOrder(r.gameFiles)), input.disabled)
  }

  lemma {:induction false} AddOnsLeaveRest(env: Env, s: State, files: seq<DirFile>)
    ensures var s' := AddOnAll(env, s, files);
            && s'.records.gameFiles == s.records.gameFiles && s'.reports == s.reports
            && s'.records.gameDirectories == s.records.gameDirectories
  {
    if files != [] {
      AddOnsLeaveRest(env, s, files[..|files| - 1]);
    }
  }

  lemma DirectoriesLeaveRest(env: Env, s: State, listings: seq<Listed>)
    ensures var s' := ScanAddOnDirectories(env, s, listings);
            && s'.records.gameFiles == s.records.gameFiles && s'.reports == s.reports
            && s'.records.gameDirectories == s.records.gameDirectories
  {
    hide AddOnAll, SeenAddOns, KeptAddOns;
    AddOnsLeaveRest(env, WithAddOns(s, UnseenAddOns(s.records.addOnFiles)), SeenAddOns(listings));
  }

  lemma KeptAddOnStamps(addOns: AddOnFiles)
    ensures SeenAddOnStamps(KeptAddOns(addOns)) == SeenAddOnStamps(addOns) == AddOnStamps(KeptAddOns(addOns))
  {
  }

  lemma NoAddOnSeen(addOns: AddOnFiles)
    ensures SeenAddOnStamps(UnseenAddOns(addOns)) == map[] && AddOnStamps(UnseenAddOns(addOns)) == AddOnStamps(addOns)
  {
  }

  lemma NoGameSeen(games: GameFiles)
    ensures SeenStamps(Unseen(games)) == map[] && Stamps(Unseen(games)) == Stamps(games)
  {
  }

  lemma KeptStamps(games: GameFiles)
    ensures SeenStamps(KeptGames(games)) == SeenStamps(games) == Stamps(KeptGames(games))
  {
  }

  lemma AddOnsAreCovered(env: Env, s: State, listings: seq<Listed>)
    requires NoneStopped(listings) && OneStamp(SeenAddOns(listings))
    ensures AddOnsCovered(ScanAddOnDirectories(env, s, listings).records.addOnFiles, listings)
  {
    hide AddOnAll, SeenAddOns, KeptAddOns, UnseenAddOns, SeenAddOnStamps, AddOnStamps, OneStamp, NoneStopped,
         AllComplete;
    var start := WithAddOns(s, UnseenAddOns(s.records.addOnFiles));
    NoAddOnSeen(s.records.addOnFiles);
    AddOnPassMarks(env, start, SeenAddOns(listings));
    KeptAddOnStamps(AddOnAll(env, start, SeenAddOns(listings)).records.addOnFiles);
  }

  // ----- the refresh

  lemma RefreshRemembers(env: Env, p: ProgramRecord, addOns: seq<Indexed>, games: seq<Indexed>,
                         disabled: map<nat, seq<Bytes>>)
    ensures IsRemembered(RefreshedProgram(env, p, addOns, games, disabled), addOns, games, disabled)
  {
    hide FingerprintOf, Chosen, Overlay, UpdateFrom;
  }

  lemma GameRemembers(env: Env, g: GameFileRecord, addOns: seq<Indexed>, games: seq<Indexed>,
                      disabled: map<nat, seq<Bytes>>)
    ensures var r := RefreshedGame(env, g, addOns, games, disabled);
            && SameAddOns(r, g) && r.isGame == g.isGame
            && (r.isGame && r.seen ==> AllRemembered(r.programs, addOns, games, disabled))
  {
    hide IsRemembered, RefreshedProgram;
    forall i | 0 <= i < |g.programs|
      ensures IsRemembered(RefreshedProgram(env, g.programs[i], addOns, games, disabled), addOns, games, disabled)
    {
      RefreshRemembers(env, g.programs[i], addOns, games, disabled);
    }
  }

  lemma RefreshedGamesRemember(env: Env, m: GameFiles, addOns: seq<Indexed>, games: seq<Indexed>,
                               disabled: map<nat, seq<Bytes>>)
    ensures var r := RefreshedGames(env, m, addOns, games, disabled);
            && GamesRemember(r, addOns, games, disabled)
            && r.Keys == m.Keys && (forall p :: p in m ==> SameAddOns(r[p], m[p]))
            && SeenStamps(r) == SeenStamps(m) && Stamps(r) == Stamps(m)
  {
    hide RefreshedGame, AllRemembered;
    forall p | p in m
      ensures var r := RefreshedGame(env, m[p], addOns, games, disabled);
              && SameAddOns(r, m[p]) && r.isGame == m[p].isGame
              && (r.isGame && r.seen ==> AllRemembered(r.programs, addOns, games, disabled))
    {
      GameRemembers(env, m[p], addOns, games, disabled);
    }
  }

  lemma FinishedCovers(env: Env, s: State, input: Input)
    requires s.records.gameDirectories == input.directories && AddOnsCovered(s.records.addOnFiles, input.addOnListings)
    requires SeenStamps(s.records.gameFiles) == FirstStamps(ScannedFiles(input.gameListings))
    ensures Covered(Finished(env, s, AllComplete(input.gameListings), input.disabled).records, input)
  {
    hide AddOnsCovered, SeenStamps, Stamps, ScannedFiles, KeptGames, RefreshedGames, RefreshReports, GamesRemember,
         AllComplete, SameAddOns, AddOnIndex, GameIndex, InOrder;
    var kept := if AllComplete(input.gameListings) then KeptGames(s.records.gameFiles) else s.records.gameFiles;
    KeptStamps(s.records.gameFiles);
    var addOns, games := AddOnIndex(InOrder(s.records.addOnFiles)), GameIndex(InOrder(kept));
    RefreshedGamesRemember(env, kept, addOns, games, input.disabled);
    SameMapsSameIndex(RefreshedGames(env, kept, addOns, games, input.disabled), kept);
  }

  lemma GatheredMarks(env: Env, s: State, input: Input)
    requires Completed(input) && OneStamp(SeenAddOns(input.addOnListings))
    ensures var g := Gathered(env, s, input).records;
            && g.gameDirectories == input.directories && AddOnsCovered(g.addOnFiles, input.addOnListings)
            && SeenStamps(g.gameFiles) == FirstStamps(ScannedFiles(input.gameListings))
  {
    hide ScanAddOnDirectories, ScanAll, ScannedFiles, SeenAddOns, AddOnsCovered, SeenStamps, Stamps, Unseen, OneStamp,
         AllRan, NoneStopped;
    var prepared := Prepared(s, input);
    NoGameSeen(s.records.gameFiles);
    DirectoriesLeaveRest(env, prepared, input.addOnListings);
    AddOnsAreCovered(env, prepared, input.addOnListings);
    var listed := ScanAddOnDirectories(env, prepared, input.addOnListings);
    PassMarks(env, listed, ScannedFiles(input.gameListings));
    AddOnsStay(env, listed, ScannedFiles(input.gameListings));
  }

  lemma ScanCovers(env: Env, s: State, input: Input)
    requires Completed(input) && OneStamp(SeenAddOns(input.addOnListings))
    ensures Covered(Scan(env, s, input).records, input)
  {
    hide Gathered, Finished, AddOnsCovered, Covered, Completed, OneStamp;
    GatheredMarks(env, s, input);
    FinishedCovers(env, Gathered(env, s, input), input);
  }

  // ----- scanning again

  lemma PersistedStamps(r: Records, t: Records)
    requires Persisted(r) == Persisted(t)
    ensures AddOnStamps(r.addOnFiles) == AddOnStamps(t.addOnFiles) && Stamps(r.gameFiles) == Stamps(t.gameFiles)
    ensures r.gameDirectories == t.gameDirectories
  {
    hide PersistedPrograms;
    forall p
      ensures p in r.addOnFiles <==> p in Persisted(r).addOnFiles
      ensures p in t.addOnFiles <==> p in Persisted(t).addOnFiles
      ensures p in r.gameFiles <==> p in Persisted(r).gameFiles
      ensures p in t.gameFiles <==> p in Persisted(t).gameFiles
    {
    }
  }

  lemma AllAddOnsKept(addOns: AddOnFiles)
    requires SeenAddOnStamps(addOns) == AddOnStamps(addOns)
    ensures KeptAddOns(addOns) == addOns
  {
    forall p | p in addOns
      ensures addOns[p].seen
    {
      assert p in AddOnStamps(addOns);
    }
  }

  lemma AllGamesKept(games: GameFiles)
    requires SeenStamps(games) == Stamps(games)
    ensures KeptGames(games) == games
  {
    forall p | p in games
      ensures games[p].seen
    {
      assert p in Stamps(games);
    }
  }

  lemma QuietDirectories(env: Env, s: State, listings: seq<Listed>, addOns: AddOnFiles)
    requires NoneStopped(listings) && OneStamp(SeenAddOns(listings)) && AddOnsCovered(addOns, listings)
    requires AddOnStamps(s.records.addOnFiles) == AddOnStamps(addOns)
    ensures ScanAddOnDirectories(env, s, listings).dirty == s.dirty
  {
    var start := WithAddOns(s, UnseenAddOns(s.records.addOnFiles));
    SeenWithin(addOns);
    NoAddOnSeen(s.records.addOnFiles);
    hide AddOnAll, SeenAddOns, KeptAddOns, UnseenAddOns, SeenAddOnStamps, AddOnStamps, OneStamp, NoneStopped,
         AllComplete, FirstStamps;
    QuietAddOns(env, start, SeenAddOns(listings));
    AddOnPassMarks(env, start, SeenAddOns(listings));
    if AllComplete(listings) {
      AllAddOnsKept(AddOnAll(env, start, SeenAddOns(listings)).records.addOnFiles);
    }
  }

  lemma SeenWithin(addOns: AddOnFiles)
    ensures Within(SeenAddOnStamps(addOns), AddOnStamps(addOns))
  {
  }

  lemma SeenGamesWithin(games: GameFiles)
    ensures Within(SeenStamps(games), Stamps(games))
  {
  }

  lemma QuietGathering(env: Env, r: Records, t: State, input: Input)
    requires Completed(input) && OneStamp(SeenAddOns(input.addOnListings)) && Covered(r, input)
    requires !t.dirty && Persisted(t.records) == Persisted(r)
    ensures var g := Gathered(env, t, input);
            !g.dirty && AllUnchanged(g.reports) && Persisted(g.records) == Persisted(r)
  {
    PersistedStamps(r, t.records);
    SeenGamesWithin(r.gameFiles);
    NoGameSeen(t.records.gameFiles);
    GatheredIsHonest(env, t, input);
    hide Persisted, ScanAddOnDirectories, ScanAll, ScannedFiles, SeenAddOns, AddOnsCovered, SeenStamps, Stamps, Unseen,
         OneStamp, AllRan, NoneStopped, AllComplete, GamesRemember, AddOnStamps, FirstStamps, Within;
    var prepared := Prepared(t, input);
    assert prepared.reports == [] && !prepared.dirty;
    DirectoriesLeaveRest(env, prepared, input.addOnListings);
    QuietDirectories(env, prepared, input.addOnListings, r.addOnFiles);
    QuietPass(env, ScanAddOnDirectories(env, prepared, input.addOnListings), ScannedFiles(input.gameListings));
  }

  // ----- the refresh has nothing to do

  lemma SameAddOnRecords(r: Records, g: Records)
    requires Persisted(r) == Persisted(g) && SeenAddOnStamps(r.addOnFiles) == SeenAddOnStamps(g.addOnFiles)
    ensures r.addOnFiles == g.addOnFiles
  {
    hide PersistedGame;
    var a, b := r.addOnFiles, g.addOnFiles;
    assert forall p :: p in a <==> p in Persisted(r).addOnFiles;
    assert forall p :: p in b <==> p in Persisted(g).addOnFiles;
    forall p | p in a
      ensures p in b && a[p] == b[p]
    {
      assert Persisted(r).addOnFiles[p] == PersistedAddOn(a[p]) && Persisted(g).addOnFiles[p] == PersistedAddOn(b[p]);
      assert p in SeenAddOnStamps(a) <==> p in SeenAddOnStamps(b);
    }
  }

  lemma SameGameMarks(r: Records, g: Records)
    requires Persisted(r) == Persisted(g) && SeenStamps(r.gameFiles) == SeenStamps(g.gameFiles)
    ensures r.gameFiles.Keys == g.gameFiles.Keys
    ensures forall p :: p in r.gameFiles ==> SameAddOns(r.gameFiles[p], g.gameFiles[p])
    ensures forall p :: p in r.gameFiles ==>
              && r.gameFiles[p].isGame == g.gameFiles[p].isGame
              && PersistedPrograms(r.gameFiles[p].programs) == PersistedPrograms(g.gameFiles[p].programs)
  {
    hide PersistedPrograms, PersistedAddOn;
    var a, b := r.gameFiles, g.gameFiles;
    assert forall p :: p in a <==> p in Persisted(r).gameFiles;
    assert forall p :: p in b <==> p in Persisted(g).gameFiles;
    forall p | p in a
      ensures p in b && SameAddOns(a[p], b[p]) && a[p].isGame == b[p].isGame
      ensures PersistedPrograms(a[p].programs) == PersistedPrograms(b[p].programs)
    {
      assert Persisted(r).gameFiles[p] == PersistedGame(a[p]) && Persisted(g).gameFiles[p] == PersistedGame(b[p]);
      assert p in SeenStamps(a) <==> p in SeenStamps(b);
    }
  }

  lemma PersistedRemember(ps: seq<ProgramRecord>, qs: seq<ProgramRecord>, addOns: seq<Indexed>, games: seq<Indexed>,
                          disabled: map<nat, seq<Bytes>>)
    requires PersistedPrograms(ps) == PersistedPrograms(qs) && AllRemembered(ps, addOns, games, disabled)
    ensures AllRemembered(qs, addOns, games, disabled)
  {
    hide FingerprintOf, Chosen;
    forall i | 0 <= i < |qs|
      ensures IsRemembered(qs[i], addOns, games, disabled)
    {
      assert PersistedPrograms(ps)[i] == PersistedPrograms(qs)[i];
      assert IsRemembered(ps[i], addOns, games, disabled);
    }
  }

  lemma SameGamesRemember(r: Records, g: Records, addOns: seq<Indexed>, games: seq<Indexed>,
                          disabled: map<nat, seq<Bytes>>)
    requires Persisted(r) == Persisted(g) && SeenStamps(r.gameFiles) == SeenStamps(g.gameFiles)
    requires GamesRemember(r.gameFiles, addOns, games, disabled)
    ensures GamesRemember(g.gameFiles, addOns, games, disabled)
  {
    SameGameMarks(r, g);
    hide Persisted, PersistedPrograms, AllRemembered, SeenStamps;
    forall p | p in g.gameFiles && g.gameFiles[p].isGame && g.gameFiles[p].seen
      ensures AllRemembered(g.gameFiles[p].programs, addOns, games, disabled)
    {
      PersistedRemember(r.gameFiles[p].programs, g.gameFiles[p].programs, addOns, games, disabled);
    }
  }

  lemma {:induction false} NothingToTell(env: Env, path: Path, ps: seq<ProgramRecord>, addOns: seq<Indexed>,
                                         games: seq<Indexed>, disabled: map<nat, seq<Bytes>>)
    requires AllRemembered(ps, addOns, games, disabled)
    ensures ProgramReports(env, path, ps, addOns, games, disabled) == []
  {
    hide FingerprintOf, Chosen, UpdateFrom, Overlay;
    if ps != [] {
      NothingToTell(env, path, ps[..|ps| - 1], addOns, games, disabled);
      assert IsRemembered(ps[|ps| - 1], addOns, games, disabled);
    }
  }

  lemma {:induction false} NoFileToTell(env: Env, files: seq<Filed<GameFileRecord>>, addOns: seq<Indexed>,
                                        games: seq<Indexed>, disabled: map<nat, seq<Bytes>>)
    requires forall i :: 0 <= i < |files| && files[i].record.isGame && files[i].record.seen ==>
               AllRemembered(files[i].record.programs, addOns, games, disabled)
    ensures RefreshReports(env, files, addOns, games, disabled) == []
  {
    hide ProgramReports, AllRemembered;
    if files != [] {
      var last := files[|files| - 1];
      NoFileToTell(env, files[..|files| - 1], addOns, games, disabled);
      if last.record.isGame && last.record.seen {
        NothingToTell(env, last.path, last.record.programs, addOns, games, disabled);
      }
    }
  }

  lemma NoGameToTell(env: Env, m: GameFiles, addOns: seq<Indexed>, games: seq<Indexed>, disabled: map<nat, seq<Bytes>>)
    requires GamesRemember(m, addOns, games, disabled)
    ensures RefreshReports(env, InOrder(m), addOns, games, disabled) == []
  {
    hide AllRemembered, RefreshReports, InOrder;
    InOrderFiles(m);
    NoFileToTell(env, InOrder(m), addOns, games, disabled);
  }

  lemma QuietFinish(env: Env, r: Records, g: State, input: Input)
    requires Covered(r, input) && Persisted(g.records) == Persisted(r)
    requires AddOnsCovered(g.records.addOnFiles, input.addOnListings)
    requires SeenStamps(g.records.gameFiles) == FirstStamps(ScannedFiles(input.gameListings))
    ensures var s := Finished(env, g, AllComplete(input.gameListings), input.disabled);
            s.dirty == g.dirty && s.reports == g.reports
  {
    var games := g.records.gameFiles;
    PersistedStamps(r, g.records);
    SameAddOnRecords(r, g.records);
    SameGameMarks(r, g.records);
    hide Persisted, SeenStamps, Stamps, SeenAddOnStamps, AddOnStamps, ScannedFiles, SeenAddOns, KeptGames,
         RefreshedGames, RefreshReports, GamesRemember, AllComplete, SameAddOns, AddOnIndex, GameIndex, InOrder,
         FirstStamps, PersistedPrograms;
    if AllComplete(input.gameListings) {
      AllGamesKept(games);
    }
    SameMapsSameIndex(r.gameFiles, games);
    var addOns, index := AddOnIndex(InOrder(r.addOnFiles)), GameIndex(InOrder(r.gameFiles));
    SameGamesRemember(r, g.records, addOns, index, input.disabled);
    NoGameToTell(env, games, addOns, index, input.disabled);
  }

  /** Scanning what a completed scan has scanned: whatever the files hold by now, if the listings
      and settings are the same, nothing is parsed, read or saved, and no report says that
      anything changed. `t` is the cache as the first scan left it, or as it was saved and loaded
      again. */
  lemma RescanIsQuiet(env: Env, s: State, later: Env, t: State, input: Input)
    requires Completed(input) && OneStamp(SeenAddOns(input.addOnListings))
    requires !t.dirty && Persisted(t.records) == Persisted(Scan(env, s, input).records)
    ensures var again := Scan(later, t, input);
            !again.dirty && AllUnchanged(again.reports) && Persisted(again.records) == Persisted(t.records)
  {
    hide Scan, Covered, Persisted, OneStamp, Completed, Gathered, Finished, AddOnsCovered, SeenStamps, AllUnchanged;
    var r := Scan(env, s, input).records;
    ScanCovers(env, s, input);
    QuietGathering(later, r, t, input);
    GatheredMarks(later, t, input);
    QuietFinish(later, r, Gathered(later, t, input), input);
    CompletedIsFinished(later, t, input);
    ScanIsHonest(later, t, input);
  }

  lemma CompletedIsFinished(env: Env, s: State, input: Input)
    requires Completed(input)
    ensures Scan(env, s, input)
         == Finished(env, Gathered(env, s, input), AllComplete(input.gameListings), input.disabled)
  {
  }

  // ----- over the file on disk

  /** A scan that could be saved leaves nothing unsaved: the file restores exactly what is in
      memory. One that could not be saved leaves the file alone. */
  lemma ScanIsSaved(env: Env, session: Session, input: Input, language: nat, saved: bool)
    requires language < TWO_32 && FlagIsRight(session, language)
    ensures var done := AfterScan(env, session, input, language, saved);
            && (saved && Fits(done.state.records) ==>
                  && !done.state.dirty
                  && AfterLoad(done.file, EMPTY, language) == Persisted(done.state.records))
            && (!saved ==> done.file == session.file)
  {
    hide Fits, SaveFile, AfterLoad, Persisted, Scan, FlagIsRight;
    ScanKeepsFlag(env, session, input, language, saved);
    FlagMeans(AfterScan(env, session, input, language, saved), language);
  }

  lemma FlagMeans(session: Session, language: nat)
    requires FlagIsRight(session, language) && session.loaded
    ensures !session.state.dirty ==> AfterLoad(session.file, EMPTY, language) == Persisted(session.state.records)
  {
  }

  /** Starting the program again and scanning the same files leaves the file as it is and reports
      no change. */
  lemma RestartIsQuiet(env: Env, session: Session, later: Env, input: Input, language: nat, saved: bool)
    requires language < TWO_32 && FlagIsRight(session, language)
    requires Completed(input) && OneStamp(SeenAddOns(input.addOnListings))
    requires Fits(AfterScan(env, session, input, language, true).state.records)
    ensures var file := AfterScan(env, session, input, language, true).file;
            var again := AfterScan(later, Started(file), input, language, saved);
            again.file == file && AllUnchanged(again.state.reports)
  {
    hide Fits, SaveFile, AfterLoad, Persisted, Scan, FlagIsRight, Completed, OneStamp, AllUnchanged;
    var done := AfterScan(env, session, input, language, true);
    ScanIsSaved(env, session, input, language, true);
    PersistedTwice(done.state.records);
    RescanIsQuiet(env, Opened(session, language), later, Opened(Started(done.file), language), input);
  }

  lemma PersistedTwice(r: Records)
    ensures Persisted(Persisted(r)) == Persisted(r)
  {
    forall ps: seq<ProgramRecord>
      ensures PersistedPrograms(PersistedPrograms(ps)) == PersistedPrograms(ps)
    {
    }
  }
}
