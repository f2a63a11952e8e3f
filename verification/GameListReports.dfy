/** What the callback of a scan is told (src/nxemu-loader/game_list_cache.cpp:752-766, 928-974,
    1199-1230). */
module GameListReports {
  import opened Bytes
  import opened Options
  import opened PathOrder
  import opened CacheFormat
  import opened GameListRecords
  import opened GameListUpdates
  import opened GameListScan
  import opened GameListAgreement

  // ----- each application once

  predicate Names(r: Report, p: Path, i: nat) {
    r.path == p && r.index == i
  }

  /** Exactly one report names the application. */
  predicate OnceFor(reports: seq<Report>, p: Path, i: nat) {
    exists k :: 0 <= k < |reports| && OnlyAt(reports, p, i, k)
  }

  predicate OnlyAt(reports: seq<Report>, p: Path, i: nat, k: nat)
    requires k < |reports|
  {
    Names(reports[k], p, i) && forall j :: 0 <= j < |reports| && Names(reports[j], p, i) ==> j == k
  }

  /** The application is one of a game that has been seen. */
  predicate IsShown(games: GameFiles, p: Path, i: nat) {
    Seen(games, p) && games[p].isGame && i < |games[p].programs|
  }

  /** Every application of every game seen has been reported exactly once, and nothing else has. */
  ghost predicate ReportedOnce(s: State) {
    && (forall p, i :: IsShown(s.records.gameFiles, p, i) ==> OnceFor(s.reports, p, i))
    && (forall k :: 0 <= k < |s.reports| ==> IsShown(s.records.gameFiles, s.reports[k].path, s.reports[k].index))
  }

  lemma OnceMore(before: seq<Report>, told: seq<Report>, p: Path, i: nat)
    requires OnceFor(before, p, i) && forall k :: 0 <= k < |told| ==> !Names(told[k], p, i)
    ensures OnceFor(before + told, p, i)
  {
    hide Names;
    var k :| 0 <= k < |before| && OnlyAt(before, p, i, k);
    var all := before + told;
    forall j | 0 <= j < |all| && j != k
      ensures !Names(all[j], p, i)
    {
      assert all[j] == if j < |before| then before[j] else told[j - |before|];
    }
    assert OnlyAt(all, p, i, k);
  }

  lemma OnceNow(before: seq<Report>, told: seq<Report>, p: Path, i: nat)
    requires i < |told| && forall k :: 0 <= k < |told| ==> told[k].path == p && told[k].index == k
    requires forall k :: 0 <= k < |before| ==> before[k].path != p
    ensures OnceFor(before + told, p, i)
  {
    var all := before + told;
    forall j | 0 <= j < |all| && j != |before| + i
      ensures !Names(all[j], p, i)
    {
      assert all[j] == if j < |before| then before[j] else told[j - |before|];
    }
    assert all[|before| + i] == told[i];
    assert OnlyAt(all, p, i, |before| + i);
  }

  /** What a pass tells about one file: each application, in order. */
  lemma ToldOfOne(path: Path, ps: seq<ProgramRecord>, changed: bool, told: seq<Report>)
    requires told == ReportsOf(path, ps, changed)
    ensures |told| == |ps| && forall k :: 0 <= k < |told| ==> told[k].path == path && told[k].index == k
  {
  }

  lemma OneReports(env: Env, s: State, f: DirFile)
    requires ReportedOnce(s)
    ensures ReportedOnce(ScanOne(env, s, f))
  {
    var games := s.records.gameFiles;
    if !Seen(games, f.path) {
      var s' := ScanOne(env, s, f);
      var r := Visited(env, games, f);
      var told := if r.isGame then ReportsOf(f.path, r.programs, !UpToDate(games, f)) else [];
      ToldOfOne(f.path, r.programs, !UpToDate(games, f), ReportsOf(f.path, r.programs, !UpToDate(games, f)));
      hide Visited, ReportsOf, OnceFor;
      forall p, i | IsShown(s'.records.gameFiles, p, i)
        ensures OnceFor(s.reports + told, p, i)
      {
        if p == f.path {
          OnceNow(s.reports, told, p, i);
        } else {
          assert IsShown(games, p, i);
          OnceMore(s.reports, told, p, i);
        }
      }
      assert forall k :: 0 <= k < |s.reports| ==> IsShown(games, s.reports[k].path, s.reports[k].index);
      assert r.seen by { VisitedIsSeen(env, games, f); }
    }
  }

  lemma VisitedIsSeen(env: Env, games: GameFiles, f: DirFile)
    ensures Visited(env, games, f).seen
  {
  }

  lemma {:induction false} AllReport(env: Env, s: State, files: seq<DirFile>)
    requires ReportedOnce(s)
    ensures ReportedOnce(ScanAll(env, s, files))
  {
    if files != [] {
      hide ReportedOnce, ScanOne;
      AllReport(env, s, files[..|files| - 1]);
      OneReports(env, ScanAll(env, s, files[..|files| - 1]), files[|files| - 1]);
    }
  }

  lemma {:induction false} AddOnsTellNothing(env: Env, s: State, files: seq<DirFile>)
    ensures AddOnAll(env, s, files).reports == s.reports
    ensures AddOnAll(env, s, files).records.gameFiles == s.records.gameFiles
  {
    if files != [] {
      AddOnsTellNothing(env, s, files[..|files| - 1]);
    }
  }

  lemma ListedTellsNothing(env: Env, s: State, input: Input)
    ensures var listed := ScanAddOnDirectories(env, Prepared(s, input), input.addOnListings);
            listed.reports == [] && listed.records.gameFiles == Unseen(s.records.gameFiles)
  {
    hide AddOnAll;
    var prepared := Prepared(s, input);
    AddOnsTellNothing(env, WithAddOns(prepared, UnseenAddOns(prepared.records.addOnFiles)),
      SeenAddOns(input.addOnListings));
  }

  /** However often and under however many directories a game is listed, the passes of one
      scan tell the callback about each of its applications exactly once, and about nothing
      else. */
  lemma EveryGameOnce(env: Env, s: State, input: Input)
    ensures ReportedOnce(Gathered(env, s, input))
  {
    hide ScanAll, ScannedFiles, ScanAddOnDirectories, OnceFor;
    ListedTellsNothing(env, s, input);
    var listed := ScanAddOnDirectories(env, Prepared(s, input), input.addOnListings);
    assert ReportedOnce(listed);
    AllReport(env, listed, ScannedFiles(input.gameListings));
  }

  // ----- the last report of each program

  /** What the callback was told last about one application of a file. */
  function LastFor(reports: seq<Report>, p: Path, i: nat): Option<Metadata> {
    if reports == [] then None
    else
      var last := reports[|reports| - 1];
      if last.path == p && last.index == i then Some(last.metadata) else LastFor(reports[..|reports| - 1], p, i)
  }

  lemma {:induction false} LastOfBoth(a: seq<Report>, b: seq<Report>, p: Path, i: nat)
    ensures LastFor(a + b, p, i) == if LastFor(b, p, i).Some? then LastFor(b, p, i) else LastFor(a, p, i)
  {
    if b == [] {
      assert a + b == a;
    } else {
      assert (a + b)[..|a + b| - 1] == a + b[..|b| - 1];
      LastOfBoth(a, b[..|b| - 1], p, i);
    }
  }

  lemma {:induction false} NoneForOthers(reports: seq<Report>, path: Path, p: Path, i: nat)
    requires path != p && forall k :: 0 <= k < |reports| ==> reports[k].path == path
    ensures LastFor(reports, p, i).None?
  {
    if reports != [] {
      NoneForOthers(reports[..|reports| - 1], path, p, i);
    }
  }

  lemma {:induction false} LastOfGame(path: Path, ps: seq<ProgramRecord>, changed: bool, i: nat)
    requires i < |ps|
    ensures LastFor(ReportsOf(path, ps, changed), path, i) == Some(Overlaid(ps[i]))
  {
    LastOfFront(ReportsOf(path, ps, changed), path, i);
  }

  lemma {:induction false} LastOfFront(reports: seq<Report>, path: Path, i: nat)
    requires i < |reports| && forall k :: 0 <= k < |reports| ==> reports[k].path == path && reports[k].index == k
    ensures LastFor(reports, path, i) == Some(reports[i].metadata)
  {
    if i < |reports| - 1 {
      LastOfFront(reports[..|reports| - 1], path, i);
    }
  }

  /** Of every game seen, the last report of each application shows what its record shows. */
  ghost predicate Shown(s: State) {
    var games := s.records.gameFiles;
    forall p, i :: Seen(games, p) && games[p].isGame && 0 <= i < |games[p].programs| ==>
      LastFor(s.reports, p, i) == Some(Overlaid(games[p].programs[i]))
  }

  lemma OneShows(env: Env, s: State, f: DirFile)
    requires Shown(s)
    ensures Shown(ScanOne(env, s, f))
  {
    var games := s.records.gameFiles;
    if !Seen(games, f.path) {
      var s' := ScanOne(env, s, f);
      var r := Visited(env, games, f);
      var told := if r.isGame then ReportsOf(f.path, r.programs, !UpToDate(games, f)) else [];
      hide Visited, ReportsOf, LastFor, Overlaid;
      forall p, i | Seen(s'.records.gameFiles, p) && s'.records.gameFiles[p].isGame
        && 0 <= i < |s'.records.gameFiles[p].programs|
        ensures LastFor(s'.reports, p, i) == Some(Overlaid(s'.records.gameFiles[p].programs[i]))
      {
        LastOfBoth(s.reports, told, p, i);
        if p == f.path {
          LastOfGame(p, r.programs, !UpToDate(games, f), i);
        } else {
          ToldOfOne(f.path, r.programs, !UpToDate(games, f), ReportsOf(f.path, r.programs, !UpToDate(games, f)));
          NoneForOthers(told, f.path, p, i);
        }
      }
    }
  }

  lemma {:induction false} AllShow(env: Env, s: State, files: seq<DirFile>)
    requires Shown(s)
    ensures Shown(ScanAll(env, s, files))
  {
    if files != [] {
      hide Shown, ScanOne;
      AllShow(env, s, files[..|files| - 1]);
      OneShows(env, ScanAll(env, s, files[..|files| - 1]), files[|files| - 1]);
    }
  }

  lemma GatheredShows(env: Env, s: State, input: Input)
    ensures Shown(Gathered(env, s, input))
  {
    hide ScanAll, ScannedFiles, ScanAddOnDirectories, LastFor;
    ListedTellsNothing(env, s, input);
    var listed := ScanAddOnDirectories(env, Prepared(s, input), input.addOnListings);
    assert Shown(listed);
    AllShow(env, listed, ScannedFiles(input.gameListings));
  }

  // ----- the reports after the updates are known

  /** What refreshing tells about one program: its new face if it changed, nothing otherwise. */
  function Told(env: Env, p: ProgramRecord, addOns: seq<Indexed>, games: seq<Indexed>,
                disabled: map<nat, seq<Bytes>>): Option<Metadata>
  {
    var r := RefreshUpdate(env.readUpdate, p, addOns, games, disabled);
    if r.changed then Some(Overlay(r.program.base, r.program.update)) else None
  }

  lemma {:induction false} ToldOfPrograms(env: Env, path: Path, ps: seq<ProgramRecord>, addOns: seq<Indexed>,
                                          games: seq<Indexed>, disabled: map<nat, seq<Bytes>>, p: Path, i: nat)
    ensures LastFor(ProgramReports(env, path, ps, addOns, games, disabled), p, i) ==
            if p == path && i < |ps| then Told(env, ps[i], addOns, games, disabled) else None
  {
    hide RefreshUpdate, Overlay;
    if ps != [] {
      var front, last := ps[..|ps| - 1], ps[|ps| - 1];
      ToldOfPrograms(env, path, front, addOns, games, disabled, p, i);
      var r := RefreshUpdate(env.readUpdate, last, addOns, games, disabled);
      var one := if r.changed then [Report(path, |ps| - 1, Overlay(r.program.base, r.program.update), true)] else [];
      LastOfBoth(ProgramReports(env, path, front, addOns, games, disabled), one, p, i);
      OneReport(one, p, i);
    }
  }

  lemma OneReport(one: seq<Report>, p: Path, i: nat)
    requires |one| <= 1
    ensures LastFor(one, p, i) == if |one| == 1 && one[0].path == p && one[0].index == i then Some(one[0].metadata)
      else None
  {
  }

  lemma {:induction false} ToldOfFiles(env: Env, files: seq<Filed<GameFileRecord>>, addOns: seq<Indexed>,
                                       games: seq<Indexed>, disabled: map<nat, seq<Bytes>>, k: nat, i: nat)
    requires Distinct(files) && k < |files| && files[k].record.isGame && files[k].record.seen
      && i < |files[k].record.programs|
    ensures LastFor(RefreshReports(env, files, addOns, games, disabled), files[k].path, i) ==
            Told(env, files[k].record.programs[i], addOns, games, disabled)
  {
    hide ProgramReports, Told;
    var front, last := files[..|files| - 1], files[|files| - 1];
    var told := if last.record.isGame && last.record.seen then
      ProgramReports(env, last.path, last.record.programs, addOns, games, disabled) else [];
    var p := files[k].path;
    LastOfBoth(RefreshReports(env, front, addOns, games, disabled), told, p, i);
    ToldOfPrograms(env, last.path, last.record.programs, addOns, games, disabled, p, i);
    if k < |front| {
      ToldOfFiles(env, front, addOns, games, disabled, k, i);
    } else {
      NotToldBefore(env, front, addOns, games, disabled, p, i);
    }
  }

  lemma {:induction false} NotToldBefore(env: Env, files: seq<Filed<GameFileRecord>>, addOns: seq<Indexed>,
                                         games: seq<Indexed>, disabled: map<nat, seq<Bytes>>, p: Path, i: nat)
    requires forall k :: 0 <= k < |files| ==> files[k].path != p
    ensures LastFor(RefreshReports(env, files, addOns, games, disabled), p, i).None?
  {
    hide ProgramReports, Told;
    if files != [] {
      var front, last := files[..|files| - 1], files[|files| - 1];
      NotToldBefore(env, front, addOns, games, disabled, p, i);
      var told := if last.record.isGame && last.record.seen then
        ProgramReports(env, last.path, last.record.programs, addOns, games, disabled) else [];
      LastOfBoth(RefreshReports(env, front, addOns, games, disabled), told, p, i);
      ToldOfPrograms(env, last.path, last.record.programs, addOns, games, disabled, p, i);
    }
  }

  lemma RefreshedShows(env: Env, p: ProgramRecord, addOns: seq<Indexed>, games: seq<Indexed>,
                       disabled: map<nat, seq<Bytes>>)
    ensures Overlaid(RefreshedProgram(env, p, addOns, games, disabled)) ==
            (var told := Told(env, p, addOns, games, disabled); if told.Some? then told.value else Overlaid(p))
  {
    hide Overlay, FingerprintOf, Chosen, UpdateFrom;
  }

  /** When a completed scan is over, the last report about every application of every game that
      was seen shows what the cache now holds for it. */
  lemma LastReportIsCurrent(env: Env, s: State, listingComplete: bool, disabled: map<nat, seq<Bytes>>, p: Path, i: nat)
    requires Shown(s)
    requires var games := Finished(env, s, listingComplete, disabled).records.gameFiles;
             Seen(games, p) && games[p].isGame && i < |games[p].programs|
    ensures var done := Finished(env, s, listingComplete, disabled);
            LastFor(done.reports, p, i) == Some(Overlaid(done.records.gameFiles[p].programs[i]))
  {
    hide InOrder, GameIndex, AddOnIndex, RefreshReports, LastFor, RefreshedProgram, Overlaid, Told;
    var kept := if listingComplete then KeptGames(s.records.gameFiles) else s.records.gameFiles;
    var addOns, games := AddOnIndex(InOrder(s.records.addOnFiles)), GameIndex(InOrder(kept));
    assert Seen(s.records.gameFiles, p) && kept[p] == s.records.gameFiles[p];
    var before := kept[p].programs[i];
    var told := RefreshReports(env, InOrder(kept), addOns, games, disabled);
    InOrderFiles(kept);
    FindFile(kept, p);
    var k :| 0 <= k < |InOrder(kept)| && InOrder(kept)[k] == Filed(p, kept[p]);
    ToldOfFiles(env, InOrder(kept), addOns, games, disabled, k, i);
    LastOfBoth(s.reports, told, p, i);
    RefreshedShows(env, before, addOns, games, disabled);
    assert LastFor(s.reports, p, i) == Some(Overlaid(before));
  }

  lemma FindFile(m: GameFiles, p: Path)
    requires p in m
    ensures exists k :: 0 <= k < |InOrder(m)| && InOrder(m)[k] == Filed(p, m[p])
  {
    hide InOrder;
    InOrderFiles(m);
    assert IsFiled(InOrder(m), p);
    var k :| 0 <= k < |InOrder(m)| && InOrder(m)[k].path == p;
  }

  /** After a completed scan with complete listings, the last report of each application is its
      base overlaid with the highest enabled update of all files of the scan. */
  lemma LastReportIsOverlay(env: Env, known: set<Option<UpdateCandidate>>, s: State, input: Input, p: Path, i: nat)
    requires TrustedRecords(env, known, s.records) && NoCollisions(known)
    requires FullyListed(input) && KnowsInput(env, known, input)
    requires Mentions(Joined(input.gameListings), p)
    requires var file := env.parse(p, FirstStamp(Joined(input.gameListings), p)); file.AGame? && i < |file.programs|
    ensures var m := env.parse(p, FirstStamp(Joined(input.gameListings), p)).programs[i];
            var addOns := FinalAddOns(env, Joined(input.addOnListings));
            var best := Chosen(m, AddOnIndex(InOrder(addOns)), FinalIndex(env, Joined(input.gameListings)),
              input.disabled);
            LastFor(Scan(env, s, input).reports, p, i) == Some(Overlay(m, UpdateFrom(env.readUpdate, m, best)))
  {
    hide TrustedRecords, NoCollisions, KnowsInput, Finished, Gathered, FinalAddOns, Joined, FinalIndex, AddOnIndex,
         InOrder, Mentions, FirstStamp, Shown, LastFor, Chosen, Overlay, UpdateFrom, FingerprintOf;
    CompletedScan(env, known, s, input);
    GatheredShows(env, s, input);
    LastReportIsCurrent(env, Gathered(env, s, input), true, input.disabled, p, i);
  }
}
