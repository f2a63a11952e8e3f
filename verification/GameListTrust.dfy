/** Every state the cache reaches over any number of sessions can be trusted, so that what is
    proved of a scan from trusted records holds of every scan. */
module GameListTrust {
  import opened Bytes
  import opened Options
  import opened PathOrder
  import opened CacheFormat
  import opened GameListRecords
  import opened GameListUpdates
  import opened GameListScan
  import opened GameListAgreement
  import opened GameListSessions
  import opened GameListChoice

  datatype SessionStep = Scans(input: Input, saved: bool) | Restarts

  /** Scans and restarts, starting without a cache file. */
  ghost function AfterSteps(env: Env, language: nat, steps: seq<SessionStep>): Session
    requires language < TWO_32
  {
    if steps == [] then Started(None)
    else
      var before := AfterSteps(env, language, steps[..|steps| - 1]);
      match steps[|steps| - 1]
      case Scans(input, saved) => AfterScan(env, before, input, language, saved)
      case Restarts => Started(before.file)
  }

  // ----- the candidates that play a role

  function CandidatesOf(index: seq<Indexed>): set<Option<UpdateCandidate>> {
    {None} + set i | 0 <= i < |index| :: Some(index[i].candidate)
  }

  /** What the end of a scan chooses from. */
  ghost function CandidatesIn(r: Records, listingComplete: bool): set<Option<UpdateCandidate>> {
    CandidatesOf(AddOnIndex(InOrder(r.addOnFiles)))
      + CandidatesOf(GameIndex(InOrder(if listingComplete then KeptGames(r.gameFiles) else r.gameFiles)))
  }

  /** All candidates that any scan so far has chosen from. */
  ghost function Known(env: Env, language: nat, steps: seq<SessionStep>): set<Option<UpdateCandidate>>
    requires language < TWO_32
  {
    if steps == [] then {}
    else
      var before := AfterSteps(env, language, steps[..|steps| - 1]);
      Known(env, language, steps[..|steps| - 1])
        + match steps[|steps| - 1]
          case Restarts => {}
          case Scans(input, _) =>
            CandidatesIn(Gathered(env, Opened(before, language), input).records, AllComplete(input.gameListings))
  }

  lemma CandidatesCover(known: set<Option<UpdateCandidate>>, index: seq<Indexed>)
    requires CandidatesOf(index) <= known
    ensures Covers(known, index)
  {
    forall i | 0 <= i < |index|
      ensures Some(index[i].candidate) in known
    {
      assert Some(index[i].candidate) in CandidatesOf(index);
    }
    assert None in CandidatesOf(index);
  }

  lemma CandidatesAreKnown(known: set<Option<UpdateCandidate>>, r: Records, listingComplete: bool)
    requires CandidatesIn(r, listingComplete) <= known
    ensures KnowsState(known, r, listingComplete)
  {
    hide CandidatesOf, AddOnIndex, GameIndex, InOrder, Covers;
    CandidatesCover(known, AddOnIndex(InOrder(r.addOnFiles)));
    CandidatesCover(known, GameIndex(InOrder(if listingComplete then KeptGames(r.gameFiles) else r.gameFiles)));
  }

  // ----- knowing more and knowing less

  lemma TrustedWithMore(env: Env, known: set<Option<UpdateCandidate>>, more: set<Option<UpdateCandidate>>, r: Records)
    requires known <= more && TrustedRecords(env, known, r)
    ensures TrustedRecords(env, more, r)
  {
    forall p | p in r.gameFiles
      ensures TrustedGame(env, more, p, r.gameFiles[p])
    {
      GameTrustedWithMore(env, known, more, p, r.gameFiles[p]);
    }
  }

  lemma GameTrustedWithMore(env: Env, known: set<Option<UpdateCandidate>>, more: set<Option<UpdateCandidate>>, p: Path,
                            g: GameFileRecord)
    requires known <= more && TrustedGame(env, known, p, g)
    ensures TrustedGame(env, more, p, g)
  {
    hide FingerprintOf, UpdateFrom, Overlay;
  }

  lemma FewerCollisions(known: set<Option<UpdateCandidate>>, more: set<Option<UpdateCandidate>>)
    requires known <= more && NoCollisions(more)
    ensures NoCollisions(known)
  {
    hide FingerprintOf, Stream;
  }

  // ----- sessions

  /** What is in memory and what the file would give are both trusted. */
  ghost predicate TrustedSession(env: Env, known: set<Option<UpdateCandidate>>, session: Session, language: nat) {
    && TrustedRecords(env, known, session.state.records)
    && TrustedRecords(env, known, AfterLoad(session.file, EMPTY, language))
    && (!session.loaded ==> session.state.records == EMPTY)
  }

  lemma EmptyIsTrusted(env: Env, known: set<Option<UpdateCandidate>>)
    ensures TrustedRecords(env, known, EMPTY)
  {
  }

  lemma OpenedIsTrusted(env: Env, known: set<Option<UpdateCandidate>>, session: Session, language: nat)
    requires TrustedSession(env, known, session, language)
    ensures TrustedRecords(env, known, Opened(session, language).records)
  {
    hide TrustedRecords, AfterLoad;
  }

  lemma ScanKeepsSession(env: Env, known: set<Option<UpdateCandidate>>, session: Session, input: Input, language: nat,
                         saved: bool)
    requires language < TWO_32 && TrustedSession(env, known, session, language) && NoCollisions(known)
    requires KnowsState(known, Gathered(env, Opened(session, language), input).records, AllComplete(input.gameListings))
    ensures TrustedSession(env, known, AfterScan(env, session, input, language, saved), language)
  {
    hide TrustedRecords, NoCollisions, KnowsState, Gathered, Scan, AfterLoad, SaveFile, Fits, Persisted, Opened;
    OpenedIsTrusted(env, known, session, language);
    var s := Scan(env, Opened(session, language), input);
    ScanKeepsTrust(env, known, Opened(session, language), input);
    if s.dirty && saved && Fits(s.records) {
      SavedIsRight(s.records, language);
      PersistedStaysTrusted(env, known, s.records);
    }
  }

  /** Over any scans, completed or not, saved or not, and any restarts, starting from no file:
      as long as no two candidates that played a role have the same fingerprint, the records in
      memory and those a restart would load are what parsing and reading the files gives. */
  lemma {:induction false} EverythingIsTrusted(env: Env, language: nat, steps: seq<SessionStep>)
    requires language < TWO_32 && NoCollisions(Known(env, language, steps))
    ensures TrustedSession(env, Known(env, language, steps), AfterSteps(env, language, steps), language)
  {
    hide TrustedRecords, NoCollisions, AfterLoad, AfterScan, Gathered, CandidatesIn, KnowsState, Opened, AllComplete;
    if steps == [] {
      EmptyIsTrusted(env, {});
      assert AfterLoad(None, EMPTY, language) == EMPTY by { NothingToLoad(language); }
    } else {
      var front := steps[..|steps| - 1];
      var before, known := AfterSteps(env, language, front), Known(env, language, steps);
      FewerCollisions(Known(env, language, front), known);
      EverythingIsTrusted(env, language, front);
      TrustedWithMore(env, Known(env, language, front), known, before.state.records);
      TrustedWithMore(env, Known(env, language, front), known, AfterLoad(before.file, EMPTY, language));
      match steps[|steps| - 1]
      case Restarts => EmptyIsTrusted(env, known);
      case Scans(input, saved) =>
        CandidatesAreKnown(known, Gathered(env, Opened(before, language), input).records,
          AllComplete(input.gameListings));
        ScanKeepsSession(env, known, before, input, language, saved);
    }
  }

  lemma NothingToLoad(language: nat)
    ensures AfterLoad(None, EMPTY, language) == EMPTY
  {
  }

  // ----- every scan of every session

  /** What a completed scan with complete listings chooses from depends on its input only. */
  lemma KnownInput(env: Env, known: set<Option<UpdateCandidate>>, s: State, input: Input)
    requires TrustedRecords(env, known, s.records) && FullyListed(input)
    requires KnowsState(known, Gathered(env, s, input).records, AllComplete(input.gameListings))
    ensures KnowsInput(env, known, input)
  {
    hide TrustedRecords, Passed, Gathered, AddOnIndex, GameIndex, InOrder, FinalAddOns, BareGames, Covers, Joined,
         KeptGames;
    hide ScannedFiles, SeenAddOns;
    GatheredIs(env, known, s, input);
    AllScanned(input.gameListings);
    AllAddOnsSeen(input.addOnListings);
    var games := Gathered(env, s, input).records.gameFiles;
    KeptAreBare(env, known, games, Joined(input.gameListings));
    SameMapsSameIndex(KeptGames(games), BareGames(env, Joined(input.gameListings)));
  }

  /** The last of the steps is a completed scan with complete listings. */
  predicate EndsWithFullScan(steps: seq<SessionStep>) {
    steps != [] && steps[|steps| - 1].Scans? && FullyListed(steps[|steps| - 1].input)
  }

  lemma BeforeTheScan(env: Env, language: nat, steps: seq<SessionStep>) returns (s: State)
    requires language < TWO_32 && NoCollisions(Known(env, language, steps)) && EndsWithFullScan(steps)
    ensures var input := steps[|steps| - 1].input;
            && TrustedRecords(env, Known(env, language, steps), s.records)
            && KnowsInput(env, Known(env, language, steps), input)
            && AfterSteps(env, language, steps).state.records == Scan(env, s, input).records
            && AfterSteps(env, language, steps).state.reports == Scan(env, s, input).reports
  {
    hide TrustedRecords, NoCollisions, AfterLoad, Gathered, CandidatesIn, KnowsState, Opened, AllComplete, FullyListed,
         Scan;
    hide SaveFile, Fits, KnowsInput;
    var front, known, input := steps[..|steps| - 1], Known(env, language, steps), steps[|steps| - 1].input;
    var before := AfterSteps(env, language, front);
    FewerCollisions(Known(env, language, front), known);
    EverythingIsTrusted(env, language, front);
    OpenedIsTrusted(env, Known(env, language, front), before, language);
    s := Opened(before, language);
    TrustedWithMore(env, Known(env, language, front), known, s.records);
    CandidatesAreKnown(known, Gathered(env, s, input).records, AllComplete(input.gameListings));
    KnownInput(env, known, s, input);
  }

  /** In every session, whatever came before: a completed scan with complete listings leaves
      exactly the records of a scan from an empty cache. */
  lemma EveryScanIsFresh(env: Env, language: nat, steps: seq<SessionStep>)
    requires language < TWO_32 && NoCollisions(Known(env, language, steps)) && EndsWithFullScan(steps)
    ensures AfterSteps(env, language, steps).state.records ==
            Scan(env, State(EMPTY, false, []), steps[|steps| - 1].input).records
  {
    hide NoCollisions, Known, AfterSteps, Scan, FullyListed, KnowsInput, TrustedRecords;
    var s := BeforeTheScan(env, language, steps);
    SameAsFromEmpty(env, Known(env, language, steps), s, steps[|steps| - 1].input);
  }

  /** And every application then carries the winning update, in its record and in the last
      report about it. */
  lemma EveryScanFindsTheWinner(env: Env, language: nat, steps: seq<SessionStep>, p: Path, i: nat)
    requires language < TWO_32 && NoCollisions(Known(env, language, steps)) && EndsWithFullScan(steps)
    requires IsProgram(env, steps[|steps| - 1].input, p, i)
    ensures CarriesTheWinner(env, steps[|steps| - 1].input, AfterSteps(env, language, steps).state, p, i)
  {
    var input := steps[|steps| - 1].input;
    var s := BeforeTheScan(env, language, steps);
    EveryProgramCarriesTheWinner(env, Known(env, language, steps), s, input, p, i);
    hide NoCollisions, Known, AfterSteps, Scan, FullyListed, KnowsInput, TrustedRecords, IsProgram, Wins, Available;
    SameFaces(env, input, Scan(env, s, input), AfterSteps(env, language, steps).state, p, i);
  }

  lemma SameFaces(env: Env, input: Input, s: State, t: State, p: Path, i: nat)
    requires IsProgram(env, input, p, i) && CarriesTheWinner(env, input, s, p, i)
    requires s.records == t.records && s.reports == t.reports
    ensures CarriesTheWinner(env, input, t, p, i)
  {
    hide Wins, Available;
  }
}
