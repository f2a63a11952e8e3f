/** What the list shows of every application after a completed scan, told by the listings, the
    files and the settings alone. */
module GameListFaces {
  import opened Bytes
  import opened Options
  import opened NameOrder
  import opened PathOrder
  import opened CacheFormat
  import opened GameListRecords
  import opened GameListUpdates
  import opened GameListScan
  import opened GameListAgreement
  import opened GameListReports
  import opened GameListSessions
  import opened GameListChoice
  import opened GameListTrust
  import JsonNumbers
  import Numerals

  // ----- a listed update

  /** The same number with bit 11 set. */
  predicate IsUpdateTitle(t: nat, programId: nat) {
    t % 0x800 == programId % 0x800 && t / 0x1000 == programId / 0x1000 && t / 0x800 % 2 == 1
  }

  predicate IsText(text: Bytes, s: string) {
    |text| == |s| && forall i :: 0 <= i < |s| ==> text[i] as char == s[i]
  }

  /** The settings name all updates, or this version, as disabled. */
  ghost predicate TurnedOff(settings: map<nat, seq<Bytes>>, programId: nat, version: nat) {
    programId in settings &&
    exists text :: text in settings[programId]
      && (IsText(text, "Update")
          || (|text| > 7 && IsText(text[..7], "Update@") && Numerals.IsDecimalOf(text[7..], version)))
  }

  /** A game file counts as it is listed first, an add-on file as it is listed last. */
  predicate IsListed(input: Input, o: Origin, p: Path, stamp: FileStamp) {
    match o
    case GameDirectories =>
      var files := Joined(input.gameListings);
      exists i :: 0 <= i < |files| && files[i] == DirFile(p, stamp) && forall j :: 0 <= j < i ==> files[j].path != p
    case AddOnDirectories =>
      var files := Joined(input.addOnListings);
      exists i :: 0 <= i < |files| && files[i] == DirFile(p, stamp)
        && forall j :: i < j < |files| ==> files[j].path != p
  }

  function EntriesIn(env: Env, o: Origin, p: Path, stamp: FileStamp): seq<AddOnEntry> {
    if o.GameDirectories? then env.parse(p, stamp).addOns else env.readAddOns(p, stamp)
  }

  /** A listed file holds the Control content (3) of an update (0x81) of the application, and it
      is not turned off. */
  ghost predicate IsAvailable(env: Env, input: Input, m: Metadata, o: Origin, u: UpdateCandidate) {
    && m.programIdStatus == 0 && m.programId != 0
    && IsListed(input, o, u.path, u.stamp)
    && (exists e :: e in EntriesIn(env, o, u.path, u.stamp) && e.titleType == 0x81 && e.contentType == 3
          && IsUpdateTitle(e.titleId, m.programId) && e.version == u.version)
    && !TurnedOff(input.disabled, m.programId, u.version)
  }

  /** The order of the paths as byte strings. */
  ghost predicate PathBefore(p: Path, q: Path) {
    p <= q || exists k :: 0 <= k < |p| && k < |q| && p[..k] == q[..k] && p[k] < q[k]
  }

  /** Nothing available is newer, or as new and earlier: add-on directories first, and then the
      smaller path. */
  ghost predicate IsWinner(env: Env, input: Input, m: Metadata, o: Origin, u: UpdateCandidate) {
    && IsAvailable(env, input, m, o, u)
    && forall o', v :: IsAvailable(env, input, m, o', v) ==>
         || v.version < u.version
         || (v.version == u.version
             && ((o == o' && PathBefore(u.path, v.path)) || (o.AddOnDirectories? && o'.GameDirectories?)))
  }

  // ----- what is shown

  /** Title, icon and version of the update where it has them, as read successfully (0), and
      everything else as it was parsed. */
  predicate ShowsUpdate(shown: Metadata, parsed: Metadata, u: Update) {
    && (if u.title != [] then shown.title == u.title && shown.titleStatus == 0
        else shown.title == parsed.title && shown.titleStatus == parsed.titleStatus)
    && (if u.icon != [] then shown.icon == u.icon && shown.iconStatus == 0
        else shown.icon == parsed.icon && shown.iconStatus == parsed.iconStatus)
    && (if u.version != [] then shown.displayVersion == u.version && shown.versionStatus == 0
        else shown.displayVersion == parsed.displayVersion && shown.versionStatus == parsed.versionStatus)
    && shown.fileType == parsed.fileType && shown.developer == parsed.developer
    && shown.programId == parsed.programId && shown.programIdStatus == parsed.programIdStatus
    && shown.programIds == parsed.programIds && shown.programIdsStatus == parsed.programIdsStatus
  }

  ghost predicate ShowsTheWinner(env: Env, input: Input, shown: Metadata, parsed: Metadata) {
    if exists o, u :: IsAvailable(env, input, parsed, o, u) then
      exists o, u, t :: IsWinner(env, input, parsed, o, u) && IsUpdateTitle(t, parsed.programId)
        && ShowsUpdate(shown, parsed, env.readUpdate(u.path, u.stamp, t))
    else shown == parsed
  }

  /** The last report about an application. */
  predicate IsLastReport(reports: seq<Report>, k: nat, p: Path, i: nat) {
    && k < |reports| && reports[k].path == p && reports[k].index == i
    && forall j :: k < j < |reports| ==> !(reports[j].path == p && reports[j].index == i)
  }

  // ----- the descriptions agree with the specification

  lemma UpdateTitleIs(programId: nat, t: nat)
    ensures IsUpdateTitle(t, programId) <==> t == UpdateTitleOf(programId)
  {
    var high, low := programId / 0x1000, programId % 0x800;
    assert programId / 0x800 == 2 * high + programId / 0x800 % 2;
    assert programId == programId / 0x800 * 0x800 + low;
    if IsUpdateTitle(t, programId) {
      assert t / 0x800 == 2 * (t / 0x1000) + t / 0x800 % 2;
      assert t == t / 0x800 * 0x800 + t % 0x800;
    }
  }

  lemma DisabledIs(settings: map<nat, seq<Bytes>>, programId: nat, version: nat)
    ensures TurnedOff(settings, programId, version) <==>
            programId in settings && IsUpdateDisabled(settings[programId], version)
  {
    if programId in settings {
      TextsAre(version);
      var prefix := UPDATE_TEXT + [0x40];
      var full := prefix + JsonNumbers.IntText(version);
      hide JsonNumbers.IntText;
      assert full[..7] == prefix && full[7..] == JsonNumbers.IntText(version);
      forall text | text in settings[programId]
        ensures IsText(text, "Update") <==> text == UPDATE_TEXT
        ensures |text| > 7 && IsText(text[..7], "Update@") && Numerals.IsDecimalOf(text[7..], version) <==>
                text == full
      {
        if |text| > 7 && IsText(text[..7], "Update@") && Numerals.IsDecimalOf(text[7..], version) {
          Numerals.DecimalIsUnique(text[7..], JsonNumbers.IntText(version), version);
          assert text[..7] == prefix;
          assert text == text[..7] + text[7..];
        }
      }
    }
  }

  lemma TextsAre(version: nat)
    ensures IsText(UPDATE_TEXT, "Update") && IsText(UPDATE_TEXT + [0x40], "Update@")
    ensures Numerals.IsDecimalOf(JsonNumbers.IntText(version), version)
  {
    Numerals.DigitsAreDecimal(version);
  }

  lemma {:induction false} FirstIs(files: seq<DirFile>, p: Path, stamp: FileStamp)
    ensures
      (exists i :: 0 <= i < |files| && files[i] == DirFile(p, stamp)
        && forall j :: 0 <= j < i ==> files[j].path != p)
      <==> Mentions(files, p) && stamp == FirstStamp(files, p)
  {
    if files != [] {
      var front := files[..|files| - 1];
      FirstIs(front, p, stamp);
      assert files == front + [files[|files| - 1]];
      if Mentions(front, p) {
        var k :| 0 <= k < |front| && front[k].path == p;
        assert files[k].path == p;
      }
    }
  }

  lemma {:induction false} LastIs(files: seq<DirFile>, p: Path, stamp: FileStamp)
    ensures (exists i :: 0 <= i < |files| && files[i] == DirFile(p, stamp)
               && forall j :: i < j < |files| ==> files[j].path != p)
            <==> Mentions(files, p) && stamp == LastStamp(files, p)
  {
    if files != [] {
      var front, last := files[..|files| - 1], files[|files| - 1];
      LastIs(front, p, stamp);
      assert files == front + [last];
      if last.path == p {
        assert files[|files| - 1].path == p;
      } else if Mentions(files, p) {
        MentionedBefore(files, p);
      }
    }
  }

  lemma EntryIs(entries: seq<AddOnEntry>, programId: nat, version: nat)
    ensures HasControl(entries, UpdateTitleOf(programId), version) <==>
            exists e :: e in entries && e.titleType == 0x81 && e.contentType == 3
              && IsUpdateTitle(e.titleId, programId) && e.version == version
  {
    forall e | e in entries
      ensures IsUpdateTitle(e.titleId, programId) <==> e.titleId == UpdateTitleOf(programId)
    {
      UpdateTitleIs(programId, e.titleId);
    }
    hide IsUpdateTitle, UpdateTitleOf;
    if HasControl(entries, UpdateTitleOf(programId), version) {
      var i :| 0 <= i < |entries| && IsControlUpdate(entries[i])
        && entries[i].titleId == UpdateTitleOf(programId) && entries[i].version == version;
      assert entries[i] in entries;
    }
  }

  lemma AvailableIs(env: Env, input: Input, m: Metadata, o: Origin, u: UpdateCandidate)
    ensures IsAvailable(env, input, m, o, u) <==> Available(env, input, m, o, u)
  {
    FirstIs(Joined(input.gameListings), u.path, u.stamp);
    LastIs(Joined(input.addOnListings), u.path, u.stamp);
    DisabledIs(input.disabled, m.programId, u.version);
    EntryIs(EntriesIn(env, o, u.path, u.stamp), m.programId, u.version);
    NothingDisabled(u.version);
    hide Mentions, FirstStamp, LastStamp, Joined, TurnedOff, IsUpdateDisabled, IsUpdateTitle, UpdateTitleOf, HasControl;
  }

  lemma NothingDisabled(version: nat)
    ensures !IsUpdateDisabled([], version)
  {
  }

  lemma WinnerIs(env: Env, input: Input, m: Metadata, o: Origin, u: UpdateCandidate)
    requires Wins(env, input, m, o, u)
    ensures IsWinner(env, input, m, o, u)
  {
    hide IsAvailable, Available, NameLess, PathBefore;
    AvailableIs(env, input, m, o, u);
    forall o', v | IsAvailable(env, input, m, o', v)
      ensures v.version < u.version || (v.version == u.version
                && ((o == o' && PathBefore(u.path, v.path)) || (o.AddOnDirectories? && o'.GameDirectories?)))
    {
      AvailableIs(env, input, m, o', v);
      BeforeIs(u.path, v.path);
    }
  }

  lemma BeforeIs(p: Path, q: Path)
    ensures NotAfter(p, q) <==> PathBefore(p, q)
  {
    hide NameLess;
    NameLessIs(p, q);
    if exists k :: 0 <= k < |p| && k < |q| && p[..k] == q[..k] && p[k] < q[k] {
      var k :| 0 <= k < |p| && k < |q| && p[..k] == q[..k] && p[k] < q[k];
      assert p != q;
    }
  }

  lemma {:induction false} LastReportIs(reports: seq<Report>, p: Path, i: nat)
    requires LastFor(reports, p, i).Some?
    ensures exists k: nat :: IsLastReport(reports, k, p, i) && Some(reports[k].metadata) == LastFor(reports, p, i)
  {
    var front, last := reports[..|reports| - 1], reports[|reports| - 1];
    if last.path == p && last.index == i {
      assert IsLastReport(reports, |reports| - 1, p, i);
    } else {
      LastReportIs(front, p, i);
      var k: nat :| IsLastReport(front, k, p, i) && Some(front[k].metadata) == LastFor(front, p, i);
      assert IsLastReport(reports, k, p, i);
    }
  }

  lemma OverlayShows(parsed: Metadata, u: Update)
    ensures ShowsUpdate(Overlay(parsed, u), parsed, u)
    ensures u == NO_UPDATE ==> Overlay(parsed, u) == parsed
  {
  }

  lemma CarriedIsShown(env: Env, input: Input, done: State, p: Path, i: nat)
    requires IsProgram(env, input, p, i) && CarriesTheWinner(env, input, done, p, i)
    ensures LastFor(done.reports, p, i).Some?
    ensures ShowsTheWinner(env, input, LastFor(done.reports, p, i).value, ProgramAt(env, input, p, i))
  {
    hide Available, IsAvailable, Wins, IsWinner, LastFor, Overlay, ShowsUpdate, IsUpdateTitle, UpdateTitleOf, IsProgram;
    var m, r := ProgramAt(env, input, p, i), done.records.gameFiles[p].programs[i];
    forall o, u
      ensures IsAvailable(env, input, m, o, u) <==> Available(env, input, m, o, u)
    {
      AvailableIs(env, input, m, o, u);
    }
    OverlayShows(m, r.update);
    if exists o, u :: Available(env, input, m, o, u) {
      var o, u :| Wins(env, input, m, o, u)
        && r.update == env.readUpdate(u.path, u.stamp, UpdateTitleOf(ProgramIdOf(m)));
      WinnerIs(env, input, m, o, u);
      WinnerHasProgram(env, input, m, o, u);
      var t := UpdateTitleOf(m.programId);
      UpdateTitleIs(m.programId, t);
      assert ShowsUpdate(Overlay(m, r.update), m, env.readUpdate(u.path, u.stamp, t));
    }
  }

  lemma WinnerHasProgram(env: Env, input: Input, m: Metadata, o: Origin, u: UpdateCandidate)
    requires IsWinner(env, input, m, o, u)
    ensures ProgramIdOf(m) == m.programId
  {
  }

  /** The application at `i` of a listed game file, as its first listing and the file give it. */
  predicate IsApplication(env: Env, input: Input, p: Path, i: nat, m: Metadata) {
    exists k :: 0 <= k < |Joined(input.gameListings)|
      && var f := Joined(input.gameListings)[k];
         && f.path == p && IsListed(input, GameDirectories, p, f.stamp)
         && env.parse(p, f.stamp).AGame? && i < |env.parse(p, f.stamp).programs|
         && m == env.parse(p, f.stamp).programs[i]
  }

  lemma ApplicationIs(env: Env, input: Input, p: Path, i: nat, m: Metadata)
    requires IsApplication(env, input, p, i, m)
    ensures IsProgram(env, input, p, i) && m == ProgramAt(env, input, p, i)
  {
    hide FirstStamp, Joined;
    var k :| 0 <= k < |Joined(input.gameListings)|
      && var f := Joined(input.gameListings)[k];
         && f.path == p && IsListed(input, GameDirectories, p, f.stamp)
         && env.parse(p, f.stamp).AGame? && i < |env.parse(p, f.stamp).programs|
         && m == env.parse(p, f.stamp).programs[i];
    FirstIs(Joined(input.gameListings), p, Joined(input.gameListings)[k].stamp);
  }

  /** In every session, after a completed scan with complete listings: the last report about
      each application shows title, icon and version of the winning update where it has them,
      and everything else as the file was parsed; without an available update it shows what was
      parsed. */
  lemma EveryReportShowsTheWinner(env: Env, language: nat, steps: seq<SessionStep>, p: Path, i: nat, m: Metadata)
    requires language < TWO_32 && NoCollisions(Known(env, language, steps)) && EndsWithFullScan(steps)
    requires IsApplication(env, steps[|steps| - 1].input, p, i, m)
    ensures var reports := AfterSteps(env, language, steps).state.reports;
            exists k: nat :: IsLastReport(reports, k, p, i)
              && ShowsTheWinner(env, steps[|steps| - 1].input, reports[k].metadata, m)
  {
    hide NoCollisions, Known, AfterSteps, LastFor, ShowsTheWinner, IsApplication;
    var input, done := steps[|steps| - 1].input, AfterSteps(env, language, steps).state;
    ApplicationIs(env, input, p, i, m);
    EveryScanFindsTheWinner(env, language, steps, p, i);
    CarriedIsShown(env, input, done, p, i);
    LastReportIs(done.reports, p, i);
  }

  // ----- what counts as news

  /** The report says whether the file is new or has another stamp than before the scan. */
  ghost predicate Marked(known: GameFiles, games: GameFiles, r: Report) {
    && Seen(games, r.path)
    && (r.changed <==> !(r.path in known && known[r.path].stamp == games[r.path].stamp))
  }

  /** All do so, and what has not been reached is as it was. */
  ghost predicate NewsOnly(known: GameFiles, s: State) {
    && (forall p :: p in s.records.gameFiles && !s.records.gameFiles[p].seen ==>
          p in known && s.records.gameFiles[p].stamp == known[p].stamp)
    && (forall p :: p in known ==> p in s.records.gameFiles)
    && forall k :: 0 <= k < |s.reports| ==> Marked(known, s.records.gameFiles, s.reports[k])
  }

  lemma OneIsNews(env: Env, known: GameFiles, s: State, f: DirFile)
    requires NewsOnly(known, s)
    ensures NewsOnly(known, ScanOne(env, s, f))
  {
    var games := s.records.gameFiles;
    if !Seen(games, f.path) {
      VisitedStamp(env, games, f);
      var r := Visited(env, games, f);
      ToldIsMarked(known, games, f, r);
      hide Visited, ReportsOf;
      var now := games[f.path := r];
      forall k | 0 <= k < |s.reports|
        ensures Marked(known, now, s.reports[k])
      {
        assert Marked(known, games, s.reports[k]);
      }
    }
  }

  lemma ToldIsMarked(known: GameFiles, games: GameFiles, f: DirFile, r: GameFileRecord)
    requires !Seen(games, f.path) && r.seen && r.stamp == f.stamp
    requires f.path in games ==> f.path in known && games[f.path].stamp == known[f.path].stamp
    requires f.path in known ==> f.path in games
    ensures var told := ReportsOf(f.path, r.programs, !UpToDate(games, f));
            forall k :: 0 <= k < |told| ==> Marked(known, games[f.path := r], told[k])
  {
  }

  lemma VisitedStamp(env: Env, games: GameFiles, f: DirFile)
    ensures Visited(env, games, f).stamp == f.stamp && Visited(env, games, f).seen
  {
  }

  lemma {:induction false} AllAreNews(env: Env, known: GameFiles, s: State, files: seq<DirFile>)
    requires NewsOnly(known, s)
    ensures NewsOnly(known, ScanAll(env, s, files))
  {
    if files != [] {
      hide NewsOnly, ScanOne;
      AllAreNews(env, known, s, files[..|files| - 1]);
      OneIsNews(env, known, ScanAll(env, s, files[..|files| - 1]), files[|files| - 1]);
    }
  }

  /** In the passes over the listings a report is marked as a change exactly if its file was not
      known with the stamp it was scanned with. */
  lemma ChangesAreMarked(env: Env, s: State, input: Input)
    ensures var g, known := Gathered(env, s, input), s.records.gameFiles;
            forall k :: 0 <= k < |g.reports| ==>
              var p := g.reports[k].path;
              p in g.records.gameFiles
              && (g.reports[k].changed <==> !(p in known && known[p].stamp == g.records.gameFiles[p].stamp))
  {
    hide ScanAll, ScannedFiles, ScanAddOnDirectories;
    ListedTellsNothing(env, s, input);
    var listed := ScanAddOnDirectories(env, Prepared(s, input), input.addOnListings);
    assert NewsOnly(s.records.gameFiles, listed);
    AllAreNews(env, s.records.gameFiles, listed, ScannedFiles(input.gameListings));
  }

  lemma {:induction false} ProgramsAreMarked(env: Env, path: Path, ps: seq<ProgramRecord>, addOns: seq<Indexed>,
                                             games: seq<Indexed>, disabled: map<nat, seq<Bytes>>)
    ensures forall r :: r in ProgramReports(env, path, ps, addOns, games, disabled) ==> r.changed
  {
    if ps != [] {
      ProgramsAreMarked(env, path, ps[..|ps| - 1], addOns, games, disabled);
    }
  }

  lemma {:induction false} RefreshesAreMarked(env: Env, files: seq<Filed<GameFileRecord>>, addOns: seq<Indexed>,
                                              games: seq<Indexed>, disabled: map<nat, seq<Bytes>>)
    ensures forall r :: r in RefreshReports(env, files, addOns, games, disabled) ==> r.changed
  {
    if files != [] {
      hide ProgramReports;
      var last := files[|files| - 1];
      RefreshesAreMarked(env, files[..|files| - 1], addOns, games, disabled);
      ProgramsAreMarked(env, last.path, last.record.programs, addOns, games, disabled);
    }
  }

  /** Whatever else a scan reports is a change. */
  lemma LaterReportsAreChanges(env: Env, s: State, input: Input)
    ensures Gathered(env, s, input).reports <= Scan(env, s, input).reports
    ensures forall k :: |Gathered(env, s, input).reports| <= k < |Scan(env, s, input).reports| ==>
              Scan(env, s, input).reports[k].changed
  {
    hide Gathered, RefreshReports, AddOnIndex, GameIndex, InOrder, RefreshedGames;
    var g := Gathered(env, s, input);
    var kept := if AllComplete(input.gameListings) then KeptGames(g.records.gameFiles) else g.records.gameFiles;
    RefreshesAreMarked(env, InOrder(kept), AddOnIndex(InOrder(g.records.addOnFiles)), GameIndex(InOrder(kept)),
                       input.disabled);
  }
}
