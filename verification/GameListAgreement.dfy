/** The cache agrees with what it speeds up: a completed scan over complete listings leaves
    exactly what a scan from an empty cache leaves, and a scan that was stopped or could not
    read everything drops no game. */
module GameListAgreement {
  import opened Bytes
  import opened Options
  import opened PathOrder
  import opened CacheFormat
  import opened GameListRecords
  import opened GameListUpdates
  import opened GameListScan

  // ----- what a record may be trusted for

  ghost predicate Matches(env: Env, p: Path, g: GameFileRecord) {
    match env.parse(p, g.stamp)
    case NotAGame(addOns) => !g.isGame && g.programs == [] && g.addOns == addOns
    case AGame(bases, addOns) =>
      && g.isGame && g.addOns == addOns && |g.programs| == |bases|
      && forall i :: 0 <= i < |bases| ==> g.programs[i].base == bases[i]
  }

  ghost predicate AllTrusted(env: Env, known: set<Option<UpdateCandidate>>, ps: seq<ProgramRecord>) {
    forall i :: 0 <= i < |ps| ==> Trusted(env.readUpdate, known, ps[i])
  }

  /** A record is what parsing the file with its stamp gives, and its updates are trusted. */
  ghost predicate TrustedGame(env: Env, known: set<Option<UpdateCandidate>>, p: Path, g: GameFileRecord) {
    Matches(env, p, g) && AllTrusted(env, known, g.programs)
  }

  ghost predicate TrustedGames(env: Env, known: set<Option<UpdateCandidate>>, games: GameFiles) {
    forall p :: p in games ==> TrustedGame(env, known, p, games[p])
  }

  ghost predicate TrustedAddOns(env: Env, addOns: AddOnFiles) {
    forall p :: p in addOns ==> addOns[p].entries == env.readAddOns(p, addOns[p].stamp)
  }

  ghost predicate TrustedRecords(env: Env, known: set<Option<UpdateCandidate>>, r: Records) {
    TrustedGames(env, known, r.gameFiles) && TrustedAddOns(env, r.addOnFiles)
  }

  predicate AllShown(ps: seq<ProgramRecord>) {
    forall i :: 0 <= i < |ps| ==> ps[i].effective.Some?
  }

  // ----- files and their stamps

  predicate Mentions(files: seq<DirFile>, p: Path) {
    exists i :: 0 <= i < |files| && files[i].path == p
  }

  function Paths(files: seq<DirFile>): (r: set<Path>)
    ensures forall p :: p in r <==> Mentions(files, p)
  {
    set i | 0 <= i < |files| :: files[i].path
  }

  /** A game file is scanned at its first mention. */
  function FirstStamp(files: seq<DirFile>, p: Path): FileStamp
    requires Mentions(files, p)
  {
    var front := files[..|files| - 1];
    if Mentions(front, p) then FirstStamp(front, p) else files[|files| - 1].stamp
  }

  /** An add-on file is read again at every mention with another stamp. */
  function LastStamp(files: seq<DirFile>, p: Path): FileStamp
    requires Mentions(files, p)
  {
    var last := files[|files| - 1];
    if last.path == p then last.stamp
    else
      MentionedBefore(files, p);
      LastStamp(files[..|files| - 1], p)
  }

  lemma MentionedBefore(files: seq<DirFile>, p: Path)
    requires Mentions(files, p) && files[|files| - 1].path != p
    ensures Mentions(files[..|files| - 1], p)
  {
    var i :| 0 <= i < |files| && files[i].path == p;
    assert files[..|files| - 1][i].path == p;
  }

  lemma MentionsLast(files: seq<DirFile>, p: Path)
    requires files != []
    ensures Mentions(files, p) <==> Mentions(files[..|files| - 1], p) || files[|files| - 1].path == p
  {
    var front := files[..|files| - 1];
    if Mentions(front, p) {
      var i :| 0 <= i < |front| && front[i].path == p;
      assert files[i].path == p;
    }
    if Mentions(files, p) && files[|files| - 1].path != p {
      MentionedBefore(files, p);
    }
  }

  // ----- one pass over the game files

  lemma ReportedStaysTrusted(env: Env, known: set<Option<UpdateCandidate>>, p: ProgramRecord)
    requires Trusted(env.readUpdate, known, p)
    ensures Trusted(env.readUpdate, known, Reported(p)) && Reported(p).effective.Some? && Reported(p).base == p.base
  {
    hide FingerprintOf, Overlay, UpdateFrom;
  }

  lemma NewIsTrusted(env: Env, known: set<Option<UpdateCandidate>>, f: DirFile)
    ensures TrustedGame(env, known, f.path, ParsedRecord(env, f))
  {
    hide FingerprintOf, UpdateFrom, Overlay;
  }

  lemma SeenStaysTrusted(env: Env, known: set<Option<UpdateCandidate>>, p: Path, g: GameFileRecord, seen: bool)
    requires TrustedGame(env, known, p, g)
    ensures TrustedGame(env, known, p, g.(seen := seen))
  {
    hide Trusted;
  }

  lemma ShownIsTrusted(env: Env, known: set<Option<UpdateCandidate>>, p: Path, g: GameFileRecord)
    requires TrustedGame(env, known, p, g)
    ensures TrustedGame(env, known, p, g.(programs := ReportedPrograms(g.programs)))
    ensures AllShown(ReportedPrograms(g.programs))
  {
    hide Trusted, Reported;
    forall i | 0 <= i < |g.programs|
      ensures Trusted(env.readUpdate, known, Reported(g.programs[i]))
      ensures Reported(g.programs[i]).effective.Some? && Reported(g.programs[i]).base == g.programs[i].base
    {
      ReportedStaysTrusted(env, known, g.programs[i]);
    }
  }

  lemma VisitedIsTrusted(env: Env, known: set<Option<UpdateCandidate>>, games: GameFiles, f: DirFile)
    requires TrustedGames(env, known, games)
    ensures var r := Visited(env, games, f);
            TrustedGame(env, known, f.path, r) && r.seen && r.stamp == f.stamp && AllShown(r.programs)
  {
    hide TrustedGame, ReportedPrograms;
    var g := if UpToDate(games, f) then games[f.path].(seen := true) else ParsedRecord(env, f);
    if UpToDate(games, f) {
      SeenStaysTrusted(env, known, f.path, games[f.path], true);
    } else {
      NewIsTrusted(env, known, f);
    }
    if g.isGame {
      ShownIsTrusted(env, known, f.path, g);
    } else {
      NoPrograms(env, known, f.path, g);
    }
  }

  lemma NoPrograms(env: Env, known: set<Option<UpdateCandidate>>, p: Path, g: GameFileRecord)
    requires TrustedGame(env, known, p, g) && !g.isGame
    ensures g.programs == []
  {
  }

  /** After a pass over `files`, starting with nothing seen. */
  ghost predicate Passed(env: Env, known: set<Option<UpdateCandidate>>, games: GameFiles, files: seq<DirFile>) {
    && TrustedGames(env, known, games)
    && (forall p :: Seen(games, p) <==> Mentions(files, p))
    && (forall p :: Seen(games, p) ==> games[p].stamp == FirstStamp(files, p) && AllShown(games[p].programs))
  }

  lemma {:induction false} PassKeeps(env: Env, known: set<Option<UpdateCandidate>>, s: State, files: seq<DirFile>)
    requires Passed(env, known, s.records.gameFiles, [])
    ensures Passed(env, known, ScanAll(env, s, files).records.gameFiles, files)
    ensures s.records.gameFiles.Keys <= ScanAll(env, s, files).records.gameFiles.Keys
  {
    if files != [] {
      hide Passed, Visited;
      var front := files[..|files| - 1];
      PassKeeps(env, known, s, front);
      OneKeeps(env, known, ScanAll(env, s, front), files);
    }
  }

  lemma OneKeeps(env: Env, known: set<Option<UpdateCandidate>>, s: State, files: seq<DirFile>)
    requires files != [] && Passed(env, known, s.records.gameFiles, files[..|files| - 1])
    ensures Passed(env, known, ScanOne(env, s, files[|files| - 1]).records.gameFiles, files)
  {
    hide TrustedGame, AllShown, Visited, FirstStamp, Mentions;
    var games, f := s.records.gameFiles, files[|files| - 1];
    forall p
      ensures Mentions(files, p) <==> Mentions(files[..|files| - 1], p) || f.path == p
      ensures Mentions(files, p) ==>
              FirstStamp(files, p) == if Mentions(files[..|files| - 1], p) then FirstStamp(files[..|files| - 1], p)
                else f.stamp
    {
      MentionsLast(files, p);
      FirstStampStep(files, p);
    }
    if !Seen(games, f.path) {
      VisitedIsTrusted(env, known, games, f);
    }
  }

  lemma FirstStampStep(files: seq<DirFile>, p: Path)
    requires files != []
    ensures Mentions(files, p) ==>
            FirstStamp(files, p) == if Mentions(files[..|files| - 1], p) then FirstStamp(files[..|files| - 1], p)
              else files[|files| - 1].stamp
  {
  }

  // ----- the add-on files

  ghost predicate AddOnsPassed(env: Env, addOns: AddOnFiles, files: seq<DirFile>) {
    && TrustedAddOns(env, addOns)
    && (forall p :: p in addOns && addOns[p].seen <==> Mentions(files, p))
    && (forall p :: p in addOns && addOns[p].seen ==> addOns[p].stamp == LastStamp(files, p))
  }

  lemma LastStampStep(files: seq<DirFile>, p: Path)
    requires files != []
    ensures Mentions(files, p) && files[|files| - 1].path != p ==>
            Mentions(files[..|files| - 1], p) && LastStamp(files, p) == LastStamp(files[..|files| - 1], p)
    ensures Mentions(files, p) && files[|files| - 1].path == p ==> LastStamp(files, p) == files[|files| - 1].stamp
  {
    MentionsLast(files, p);
  }

  lemma AddOnOneKeeps(env: Env, s: State, files: seq<DirFile>)
    requires files != [] && AddOnsPassed(env, s.records.addOnFiles, files[..|files| - 1])
    ensures AddOnsPassed(env, AddOnOne(env, s, files[|files| - 1]).records.addOnFiles, files)
  {
    hide LastStamp, Mentions;
    forall p
      ensures Mentions(files, p) <==> Mentions(files[..|files| - 1], p) || files[|files| - 1].path == p
      ensures Mentions(files, p) ==>
              LastStamp(files, p) == if files[|files| - 1].path == p then files[|files| - 1].stamp
                else LastStamp(files[..|files| - 1], p)
    {
      MentionsLast(files, p);
      LastStampStep(files, p);
    }
  }

  lemma {:induction false} AddOnPassKeeps(env: Env, s: State, files: seq<DirFile>)
    requires AddOnsPassed(env, s.records.addOnFiles, [])
    ensures AddOnsPassed(env, AddOnAll(env, s, files).records.addOnFiles, files)
    ensures AddOnAll(env, s, files).records.gameFiles == s.records.gameFiles
  {
    if files != [] {
      hide AddOnsPassed;
      AddOnPassKeeps(env, s, files[..|files| - 1]);
      AddOnOneKeeps(env, AddOnAll(env, s, files[..|files| - 1]), files);
    }
  }

  /** What complete listings determine. */
  function FinalAddOns(env: Env, files: seq<DirFile>): AddOnFiles {
    map p | p in Paths(files) :: AddOnFileRecord(LastStamp(files, p), env.readAddOns(p, LastStamp(files, p)), true)
  }

  lemma KeptAddOnsAreFinal(env: Env, addOns: AddOnFiles, files: seq<DirFile>)
    requires AddOnsPassed(env, addOns, files)
    ensures KeptAddOns(addOns) == FinalAddOns(env, files)
  {
    hide LastStamp, Mentions;
  }

  lemma UnseenAddOnsStart(env: Env, addOns: AddOnFiles)
    requires TrustedAddOns(env, addOns)
    ensures AddOnsPassed(env, UnseenAddOns(addOns), [])
  {
  }

  lemma AddOnScan(env: Env, s: State, listings: seq<Listed>)
    requires TrustedAddOns(env, s.records.addOnFiles)
    ensures var s' := ScanAddOnDirectories(env, s, listings);
            && s'.records.gameFiles == s.records.gameFiles
            && TrustedAddOns(env, s'.records.addOnFiles)
            && (NoneStopped(listings) && AllComplete(listings) ==>
                  s'.records.addOnFiles == FinalAddOns(env, SeenAddOns(listings)))
  {
    hide SeenAddOns, FinalAddOns;
    UnseenAddOnsStart(env, s.records.addOnFiles);
    var start := WithAddOns(s, UnseenAddOns(s.records.addOnFiles));
    AddOnPassKeeps(env, start, SeenAddOns(listings));
    KeptAddOnsAreFinal(env, AddOnAll(env, start, SeenAddOns(listings)).records.addOnFiles, SeenAddOns(listings));
  }

  // ----- the updates

  /** All candidates of an index, and the case of none, are among those without collisions. */
  ghost predicate Covers(known: set<Option<UpdateCandidate>>, index: seq<Indexed>) {
    None in known && forall i :: 0 <= i < |index| ==> Some(index[i].candidate) in known
  }

  lemma ChosenIsKnown(known: set<Option<UpdateCandidate>>, m: Metadata, addOns: seq<Indexed>, games: seq<Indexed>,
                      disabled: map<nat, seq<Bytes>>)
    requires Covers(known, addOns) && Covers(known, games)
    ensures Chosen(m, addOns, games, disabled) in known
  {
    hide EqualRange, Best;
    var cs := CandidatesFor(m, addOns, games);
    var best := Chosen(m, addOns, games, disabled);
    if best.Some? {
      BestIsHighestThenFirst(cs, DisabledFor(m, disabled));
      assert best.value in cs;
      var t := UpdateTitleOf(ProgramIdOf(m));
      RangeHolds(addOns, t, best.value);
      RangeHolds(games, t, best.value);
      assert Indexed(t, best.value) in addOns || Indexed(t, best.value) in games;
    }
  }

  /** A program as a completed scan leaves it. */
  function FinalProgram(env: Env, m: Metadata, addOns: seq<Indexed>, games: seq<Indexed>,
                        disabled: map<nat, seq<Bytes>>): ProgramRecord
  {
    var best := Chosen(m, addOns, games, disabled);
    var u := UpdateFrom(env.readUpdate, m, best);
    ProgramRecord(m, true, FingerprintOf(best), u, Some(Overlay(m, u)))
  }

  function FinalPrograms(env: Env, ms: seq<Metadata>, addOns: seq<Indexed>, games: seq<Indexed>,
                         disabled: map<nat, seq<Bytes>>): (r: seq<ProgramRecord>)
    ensures |r| == |ms|
  {
    seq(|ms|, i requires 0 <= i < |ms| => FinalProgram(env, ms[i], addOns, games, disabled))
  }

  function FinalGame(env: Env, p: Path, stamp: FileStamp, addOns: seq<Indexed>, games: seq<Indexed>,
                     disabled: map<nat, seq<Bytes>>): GameFileRecord
  {
    match env.parse(p, stamp)
    case NotAGame(a) => GameFileRecord(stamp, false, [], a, true)
    case AGame(ms, a) => GameFileRecord(stamp, true, FinalPrograms(env, ms, addOns, games, disabled), a, true)
  }

  lemma RefreshedIsFinal(env: Env, known: set<Option<UpdateCandidate>>, p: ProgramRecord, addOns: seq<Indexed>,
                         games: seq<Indexed>, disabled: map<nat, seq<Bytes>>)
    requires NoCollisions(known) && Trusted(env.readUpdate, known, p) && p.effective.Some?
    requires Covers(known, addOns) && Covers(known, games)
    ensures RefreshedProgram(env, p, addOns, games, disabled) == FinalProgram(env, p.base, addOns, games, disabled)
  {
    hide FingerprintOf, Chosen, Overlay, UpdateFrom, NoCollisions, Covers;
    ChosenIsKnown(known, p.base, addOns, games, disabled);
    RefreshIsCurrent(env.readUpdate, known, p, addOns, games, disabled);
  }

  lemma GameIsFinal(env: Env, known: set<Option<UpdateCandidate>>, p: Path, g: GameFileRecord, addOns: seq<Indexed>,
                    games: seq<Indexed>, disabled: map<nat, seq<Bytes>>)
    requires NoCollisions(known) && TrustedGame(env, known, p, g) && g.seen && AllShown(g.programs)
    requires Covers(known, addOns) && Covers(known, games)
    ensures RefreshedGame(env, g, addOns, games, disabled) == FinalGame(env, p, g.stamp, addOns, games, disabled)
  {
    hide Trusted, NoCollisions, Covers, FinalProgram, RefreshedProgram;
    forall i | 0 <= i < |g.programs|
      ensures RefreshedProgram(env, g.programs[i], addOns, games, disabled)
        == FinalProgram(env, g.programs[i].base, addOns, games, disabled)
    {
      RefreshedIsFinal(env, known, g.programs[i], addOns, games, disabled);
    }
    match env.parse(p, g.stamp)
    case NotAGame(_) =>
    case AGame(ms, _) =>
      assert RefreshedPrograms(env, g.programs, addOns, games, disabled)
        == FinalPrograms(env, ms, addOns, games, disabled);
  }

  // ----- the index does not depend on the programs

  /** The part of a record the index looks at. */
  predicate SameAddOns(g: GameFileRecord, h: GameFileRecord) {
    g.seen == h.seen && g.stamp == h.stamp && g.addOns == h.addOns
  }

  lemma {:induction false} SameIndex(fs: seq<Filed<GameFileRecord>>, gs: seq<Filed<GameFileRecord>>)
    requires |fs| == |gs|
    requires forall i :: 0 <= i < |fs| ==> fs[i].path == gs[i].path && SameAddOns(fs[i].record, gs[i].record)
    ensures GameIndex(fs) == GameIndex(gs)
  {
    hide FromEntries;
    if fs != [] {
      SameIndex(fs[..|fs| - 1], gs[..|gs| - 1]);
    }
  }

  lemma SameMapsSameIndex(m: GameFiles, n: GameFiles)
    requires m.Keys == n.Keys && forall p :: p in m ==> SameAddOns(m[p], n[p])
    ensures GameIndex(InOrder(m)) == GameIndex(InOrder(n))
  {
    hide SortedKeys, GameIndex;
    SortedKeysAre(m.Keys);
    SameIndex(InOrder(m), InOrder(n));
  }

  /** The games of the listings before updates are chosen. */
  function BareGames(env: Env, files: seq<DirFile>): GameFiles {
    map p | p in Paths(files) :: ParsedRecord(env, DirFile(p, FirstStamp(files, p)))
  }

  lemma KeptAreBare(env: Env, known: set<Option<UpdateCandidate>>, games: GameFiles, files: seq<DirFile>)
    requires Passed(env, known, games, files)
    ensures KeptGames(games).Keys == BareGames(env, files).Keys
    ensures forall p :: p in KeptGames(games) ==> SameAddOns(KeptGames(games)[p], BareGames(env, files)[p])
  {
    hide FirstStamp, Mentions, AllTrusted, AllShown, NewPrograms;
    forall p | p in KeptGames(games)
      ensures p in BareGames(env, files) && SameAddOns(KeptGames(games)[p], BareGames(env, files)[p])
    {
      assert Seen(games, p);
      assert TrustedGame(env, known, p, games[p]);
    }
  }

  ghost function FinalIndex(env: Env, files: seq<DirFile>): seq<Indexed> {
    GameIndex(InOrder(BareGames(env, files)))
  }

  ghost function FinalGames(env: Env, files: seq<DirFile>, addOns: AddOnFiles,
                            disabled: map<nat, seq<Bytes>>): GameFiles
  {
    map p | p in Paths(files) ::
      FinalGame(env, p, FirstStamp(files, p), AddOnIndex(InOrder(addOns)), FinalIndex(env, files), disabled)
  }

  lemma RefreshedAreFinal(env: Env, known: set<Option<UpdateCandidate>>, games: GameFiles, files: seq<DirFile>,
                          addOns: seq<Indexed>, index: seq<Indexed>, disabled: map<nat, seq<Bytes>>)
    requires NoCollisions(known) && Passed(env, known, games, files)
    requires Covers(known, addOns) && Covers(known, index)
    ensures RefreshedGames(env, KeptGames(games), addOns, index, disabled)
         == map p | p in Paths(files) :: FinalGame(env, p, FirstStamp(files, p), addOns, index, disabled)
  {
    hide FirstStamp, Mentions, TrustedGame, AllShown, NoCollisions, Covers, RefreshedGame, FinalGame;
    var kept := KeptGames(games);
    KeptAreBare(env, known, games, files);
    forall p | p in kept
      ensures Seen(games, p)
      ensures RefreshedGame(env, kept[p], addOns, index, disabled)
           == FinalGame(env, p, FirstStamp(files, p), addOns, index, disabled)
    {
      assert Seen(games, p);
      GameIsFinal(env, known, p, games[p], addOns, index, disabled);
    }
  }

  lemma FinishedIsFinal(env: Env, known: set<Option<UpdateCandidate>>, s: State, files: seq<DirFile>,
                        disabled: map<nat, seq<Bytes>>)
    requires NoCollisions(known) && Passed(env, known, s.records.gameFiles, files)
    requires Covers(known, AddOnIndex(InOrder(s.records.addOnFiles))) && Covers(known, FinalIndex(env, files))
    ensures Finished(env, s, true, disabled).records.gameFiles == FinalGames(env, files, s.records.addOnFiles, disabled)
  {
    hide FirstStamp, Passed, NoCollisions, Covers, InOrder, AddOnIndex, GameIndex, RefreshedGame, FinalGame,
         RefreshReports, KeptGames, BareGames, SameAddOns;
    var games := s.records.gameFiles;
    KeptAreBare(env, known, games, files);
    SameMapsSameIndex(KeptGames(games), BareGames(env, files));
    RefreshedAreFinal(env, known, games, files, AddOnIndex(InOrder(s.records.addOnFiles)), FinalIndex(env, files),
      disabled);
  }

  // ----- the main results

  lemma UnseenStarts(env: Env, known: set<Option<UpdateCandidate>>, games: GameFiles)
    requires TrustedGames(env, known, games)
    ensures Passed(env, known, Unseen(games), [])
  {
    hide TrustedGame;
    forall p | p in games
      ensures TrustedGame(env, known, p, games[p].(seen := false))
    {
      SeenStaysTrusted(env, known, p, games[p], false);
    }
  }

  /** Everything up to the end of the scan, whatever happens to it. */
  lemma GatheredIs(env: Env, known: set<Option<UpdateCandidate>>, s: State, input: Input)
    requires TrustedRecords(env, known, s.records)
    ensures var g := Gathered(env, s, input).records;
            var files := if NoneStopped(input.addOnListings) then ScannedFiles(input.gameListings) else [];
            && Passed(env, known, g.gameFiles, files) && s.records.gameFiles.Keys <= g.gameFiles.Keys
            && TrustedAddOns(env, g.addOnFiles)
            && (NoneStopped(input.addOnListings) && AllComplete(input.addOnListings) ==>
                  g.addOnFiles == FinalAddOns(env, SeenAddOns(input.addOnListings)))
  {
    hide Passed, TrustedAddOns, TrustedGames, ScannedFiles, SeenAddOns, FinalAddOns, ScanAddOnDirectories, NoneStopped,
         AllComplete;
    var prepared := Prepared(s, input);
    UnseenStarts(env, known, s.records.gameFiles);
    AddOnScan(env, prepared, input.addOnListings);
    var listed := ScanAddOnDirectories(env, prepared, input.addOnListings);
    PassKeeps(env, known, listed, ScannedFiles(input.gameListings));
    AddOnsStay(env, listed, ScannedFiles(input.gameListings));
  }

  lemma {:induction false} AddOnsStay(env: Env, s: State, files: seq<DirFile>)
    ensures ScanAll(env, s, files).records.addOnFiles == s.records.addOnFiles
    ensures ScanAll(env, s, files).records.gameDirectories == s.records.gameDirectories
  {
    if files != [] {
      hide Visited;
      AddOnsStay(env, s, files[..|files| - 1]);
    }
  }

  lemma {:induction false} AllScanned(listings: seq<Listed>)
    requires AllRan(listings)
    ensures ScannedFiles(listings) == Joined(listings)
  {
    if listings != [] {
      AllScanned(listings[1..]);
    }
  }

  /** The files of all directories, one directory after the other. */
  function Joined(listings: seq<Listed>): seq<DirFile> {
    if listings == [] then [] else listings[0].files + Joined(listings[1..])
  }

  lemma {:induction false} AllAddOnsSeen(listings: seq<Listed>)
    requires NoneStopped(listings)
    ensures SeenAddOns(listings) == Joined(listings)
  {
    if listings != [] {
      AllAddOnsSeen(listings[1..]);
    }
  }

  predicate FullyListed(input: Input) {
    Completed(input) && AllComplete(input.addOnListings) && AllComplete(input.gameListings)
  }

  /** Every candidate of this scan is among those without collisions. */
  ghost predicate KnowsInput(env: Env, known: set<Option<UpdateCandidate>>, input: Input) {
    && Covers(known, AddOnIndex(InOrder(FinalAddOns(env, Joined(input.addOnListings)))))
    && Covers(known, FinalIndex(env, Joined(input.gameListings)))
  }

  /** A completed scan with complete listings leaves records that depend on nothing but the
      listings, the files and the settings. */
  lemma CompletedScan(env: Env, known: set<Option<UpdateCandidate>>, s: State, input: Input)
    requires TrustedRecords(env, known, s.records) && NoCollisions(known)
    requires FullyListed(input) && KnowsInput(env, known, input)
    ensures var addOns := FinalAddOns(env, Joined(input.addOnListings));
            Scan(env, s, input).records ==
            Records(addOns, FinalGames(env, Joined(input.gameListings), addOns, input.disabled), input.directories)
  {
    hide TrustedRecords, NoCollisions, Covers, Passed, Finished, Gathered, FinalAddOns, FinalGames, Joined, FinalIndex,
         AddOnIndex, InOrder, ScannedFiles, SeenAddOns;
    GatheredIs(env, known, s, input);
    AllScanned(input.gameListings);
    AllAddOnsSeen(input.addOnListings);
    var g := Gathered(env, s, input);
    FinishedIsFinal(env, known, g, Joined(input.gameListings), input.disabled);
    DirectoriesTaken(env, s, input);
    FinishedKeepsRest(env, g, true, input.disabled);
  }

  lemma DirectoriesTaken(env: Env, s: State, input: Input)
    ensures Gathered(env, s, input).records.gameDirectories == input.directories
  {
    hide ScanAll, AddOnAll;
    var prepared := Prepared(s, input);
    AddOnsLeaveDirectories(env, WithAddOns(prepared, UnseenAddOns(prepared.records.addOnFiles)),
      SeenAddOns(input.addOnListings));
    AddOnsStay(env, ScanAddOnDirectories(env, prepared, input.addOnListings), ScannedFiles(input.gameListings));
  }

  lemma {:induction false} AddOnsLeaveDirectories(env: Env, s: State, files: seq<DirFile>)
    ensures AddOnAll(env, s, files).records.gameDirectories == s.records.gameDirectories
  {
    if files != [] {
      AddOnsLeaveDirectories(env, s, files[..|files| - 1]);
    }
  }

  lemma FinishedKeepsRest(env: Env, s: State, listingComplete: bool, disabled: map<nat, seq<Bytes>>)
    ensures Finished(env, s, listingComplete, disabled).records.addOnFiles == s.records.addOnFiles
    ensures Finished(env, s, listingComplete, disabled).records.gameDirectories == s.records.gameDirectories
  {
    hide InOrder, RefreshedGames, RefreshReports, GameIndex, AddOnIndex, KeptGames;
  }

  /** The cache agrees with what it speeds up. */
  lemma SameAsFromEmpty(env: Env, known: set<Option<UpdateCandidate>>, s: State, input: Input)
    requires TrustedRecords(env, known, s.records) && NoCollisions(known)
    requires FullyListed(input) && KnowsInput(env, known, input)
    ensures Scan(env, s, input).records == Scan(env, State(EMPTY, false, []), input).records
  {
    hide Scan, NoCollisions, KnowsInput, FullyListed;
    CompletedScan(env, known, s, input);
    CompletedScan(env, known, State(EMPTY, false, []), input);
  }

  /** A scan that was stopped, or a game directory that could not be read in full, drops no
      game; nor does any scan drop a game whose file was listed. */
  lemma NoGameDropped(env: Env, known: set<Option<UpdateCandidate>>, s: State, input: Input, p: Path)
    requires TrustedRecords(env, known, s.records) && p in s.records.gameFiles
    requires !Completed(input) || !AllComplete(input.gameListings) || Mentions(ScannedFiles(input.gameListings), p)
    ensures p in Scan(env, s, input).records.gameFiles
  {
    hide TrustedRecords, Gathered, ScannedFiles, InOrder, RefreshedGame, RefreshReports, GameIndex, AddOnIndex,
         AllComplete, Mentions, TrustedAddOns, TrustedGames;
    GatheredIs(env, known, s, input);
    if Completed(input) && AllComplete(input.gameListings) {
      assert Seen(Gathered(env, s, input).records.gameFiles, p);
    }
  }

  // ----- trust lasts

  lemma ProgramStaysTrusted(env: Env, known: set<Option<UpdateCandidate>>, p: ProgramRecord, addOns: seq<Indexed>,
                            games: seq<Indexed>, disabled: map<nat, seq<Bytes>>)
    requires NoCollisions(known) && Trusted(env.readUpdate, known, p) && Covers(known, addOns) && Covers(known, games)
    ensures Trusted(env.readUpdate, known, RefreshedProgram(env, p, addOns, games, disabled))
    ensures RefreshedProgram(env, p, addOns, games, disabled).base == p.base
  {
    hide FingerprintOf, Chosen, Overlay, UpdateFrom, NoCollisions, Covers, Reported, Trusted;
    ChosenIsKnown(known, p.base, addOns, games, disabled);
    RefreshIsCurrent(env.readUpdate, known, p, addOns, games, disabled);
    ReportedStaysTrusted(env, known, RefreshUpdate(env.readUpdate, p, addOns, games, disabled).program);
  }

  lemma GameStaysTrusted(env: Env, known: set<Option<UpdateCandidate>>, p: Path, g: GameFileRecord,
                         addOns: seq<Indexed>, games: seq<Indexed>, disabled: map<nat, seq<Bytes>>)
    requires NoCollisions(known) && TrustedGame(env, known, p, g) && Covers(known, addOns) && Covers(known, games)
    ensures TrustedGame(env, known, p, RefreshedGame(env, g, addOns, games, disabled))
  {
    hide Trusted, NoCollisions, Covers, RefreshedProgram;
    forall i | 0 <= i < |g.programs|
      ensures Trusted(env.readUpdate, known, RefreshedProgram(env, g.programs[i], addOns, games, disabled))
      ensures RefreshedProgram(env, g.programs[i], addOns, games, disabled).base == g.programs[i].base
    {
      ProgramStaysTrusted(env, known, g.programs[i], addOns, games, disabled);
    }
  }

  /** The candidates a finishing scan chooses from are among those without collisions. */
  ghost predicate KnowsState(known: set<Option<UpdateCandidate>>, r: Records, listingComplete: bool) {
    && Covers(known, AddOnIndex(InOrder(r.addOnFiles)))
    && Covers(known, GameIndex(InOrder(if listingComplete then KeptGames(r.gameFiles) else r.gameFiles)))
  }

  /** Whatever a scan comes to, completed or not: what was trusted before is trusted after. */
  lemma ScanKeepsTrust(env: Env, known: set<Option<UpdateCandidate>>, s: State, input: Input)
    requires TrustedRecords(env, known, s.records) && NoCollisions(known)
    requires KnowsState(known, Gathered(env, s, input).records, AllComplete(input.gameListings))
    ensures TrustedRecords(env, known, Scan(env, s, input).records)
  {
    hide NoCollisions, Covers, Gathered, InOrder, AddOnIndex, GameIndex, RefreshReports, RefreshedGame, TrustedGame,
         TrustedAddOns, Mentions, FirstStamp, AllShown, ScannedFiles, SeenAddOns, FinalAddOns;
    GatheredIs(env, known, s, input);
    var g := Gathered(env, s, input).records;
    if Completed(input) {
      var kept := if AllComplete(input.gameListings) then KeptGames(g.gameFiles) else g.gameFiles;
      var addOns, games := AddOnIndex(InOrder(g.addOnFiles)), GameIndex(InOrder(kept));
      forall p | p in kept
        ensures TrustedGame(env, known, p, RefreshedGame(env, kept[p], addOns, games, input.disabled))
      {
        GameStaysTrusted(env, known, p, kept[p], addOns, games, input.disabled);
      }
    }
  }

  /** Storing and loading keep it, too. */
  lemma PersistedStaysTrusted(env: Env, known: set<Option<UpdateCandidate>>, r: Records)
    requires TrustedRecords(env, known, r)
    ensures TrustedRecords(env, known, Persisted(r))
  {
    hide FingerprintOf, UpdateFrom, Overlay;
    forall p | p in r.gameFiles
      ensures TrustedGame(env, known, p, PersistedGame(r.gameFiles[p]))
    {
      GamePersists(env, known, p, r.gameFiles[p]);
    }
  }

  lemma GamePersists(env: Env, known: set<Option<UpdateCandidate>>, p: Path, g: GameFileRecord)
    requires TrustedGame(env, known, p, g)
    ensures TrustedGame(env, known, p, PersistedGame(g))
  {
    hide FingerprintOf, UpdateFrom, Overlay;
  }
}
