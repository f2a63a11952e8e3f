/** What a scan does to the cache (src/nxemu-loader/game_list_cache.cpp:642-974), and that a
    completed scan leaves what a scan from nothing would. Parsing a file and reading an update
    are functions of the path and the stamp. */
module GameListScan {
  import opened Bytes
  import opened Options
  import opened PathOrder
  import opened CacheFormat
  import opened GameListRecords
  import opened GameListUpdates

  datatype DirFile = DirFile(path: Path, stamp: FileStamp)

  /** What a file holds: with its applications if it is a game, and the add-ons in it. */
  datatype Parsed = NotAGame(addOns: seq<AddOnEntry>) | AGame(programs: seq<Metadata>, addOns: seq<AddOnEntry>)

  datatype Env = Env(
    parse: (Path, FileStamp) -> Parsed,
    readAddOns: (Path, FileStamp) -> seq<AddOnEntry>,
    readUpdate: UpdateReader)

  /** A call of `GameFound`; `index` says which application of the file it is for. */
  datatype Report = Report(path: Path, index: nat, metadata: Metadata, changed: bool)

  /** The cache in memory, with what the callback was told in this scan. */
  datatype State = State(records: Records, dirty: bool, reports: seq<Report>)

  function WithGames(s: State, games: GameFiles): State {
    s.(records := s.records.(gameFiles := games))
  }

  function WithAddOns(s: State, addOns: AddOnFiles): State {
    s.(records := s.records.(addOnFiles := addOns))
  }

  // ----- one game file

  function NewPrograms(bases: seq<Metadata>): (r: seq<ProgramRecord>)
    ensures |r| == |bases|
  {
    seq(|bases|, i requires 0 <= i < |bases| => ProgramRecord(bases[i], false, 0, NO_UPDATE, None))
  }

  /** `ParseGameFile` into an empty record. */
  function ParsedRecord(env: Env, f: DirFile): GameFileRecord {
    match env.parse(f.path, f.stamp)
    case NotAGame(addOns) => GameFileRecord(f.stamp, false, [], addOns, true)
    case AGame(programs, addOns) => GameFileRecord(f.stamp, true, NewPrograms(programs), addOns, true)
  }

  function ReportedPrograms(ps: seq<ProgramRecord>): (r: seq<ProgramRecord>)
    ensures |r| == |ps|
  {
    seq(|ps|, i requires 0 <= i < |ps| => Reported(ps[i]))
  }

  function ReportsOf(path: Path, ps: seq<ProgramRecord>, changed: bool): (r: seq<Report>)
    ensures |r| == |ps|
  {
    seq(|ps|, i requires 0 <= i < |ps| => Report(path, i, Overlaid(ps[i]), changed))
  }

  /** What a report of the program shows. */
  function Overlaid(p: ProgramRecord): Metadata {
    if p.effective.Some? then p.effective.value else Overlay(p.base, p.update)
  }

  predicate Seen(games: GameFiles, p: Path) {
    p in games && games[p].seen
  }

  predicate UpToDate(games: GameFiles, f: DirFile) {
    f.path in games && games[f.path].stamp == f.stamp
  }

  /** The record a file has after the pass has come to it. */
  function Visited(env: Env, games: GameFiles, f: DirFile): GameFileRecord {
    var r := if UpToDate(games, f) then games[f.path].(seen := true) else ParsedRecord(env, f);
    if r.isGame then r.(programs := ReportedPrograms(r.programs)) else r
  }

  function ScanOne(env: Env, s: State, f: DirFile): State {
    var games := s.records.gameFiles;
    if Seen(games, f.path) then s
    else
      var r := Visited(env, games, f);
      var known := UpToDate(games, f);
      State(s.records.(gameFiles := games[f.path := r]), s.dirty || !known,
            s.reports + (if r.isGame then ReportsOf(f.path, r.programs, !known) else []))
  }

  /** The loop of `ScanGameFiles`. */
  function ScanAll(env: Env, s: State, files: seq<DirFile>): State {
    if files == [] then s else ScanOne(env, ScanAll(env, s, files[..|files| - 1]), files[|files| - 1])
  }

  // ----- one add-on file

  function AddOnOne(env: Env, s: State, f: DirFile): State {
    var addOns := s.records.addOnFiles;
    if f.path in addOns && addOns[f.path].stamp == f.stamp
    then WithAddOns(s, addOns[f.path := addOns[f.path].(seen := true)])
    else WithAddOns(s,
      addOns[f.path := AddOnFileRecord(f.stamp, env.readAddOns(f.path, f.stamp), true)]).(dirty := true)
  }

  function AddOnAll(env: Env, s: State, files: seq<DirFile>): State {
    if files == [] then s else AddOnOne(env, AddOnAll(env, s, files[..|files| - 1]), files[|files| - 1])
  }

  // ----- what the listings said

  datatype Outcome = Complete | Incomplete | Stopped

  /** One directory: the files it listed, how that ended, and how many of them were scanned
      before a request to stop. */
  datatype Listed = Listed(files: seq<DirFile>, outcome: Outcome, scanned: nat)

  predicate Ran(l: Listed) {
    l.outcome != Stopped && l.scanned >= |l.files|
  }

  predicate AllRan(listings: seq<Listed>) {
    forall i :: 0 <= i < |listings| ==> Ran(listings[i])
  }

  predicate AllComplete(listings: seq<Listed>) {
    forall i :: 0 <= i < |listings| ==> listings[i].outcome == Complete
  }

  /** What is scanned of the game directories: everything up to the first stop. */
  function ScannedFiles(listings: seq<Listed>): seq<DirFile> {
    if listings == [] then []
    else
      var l := listings[0];
      if l.outcome == Stopped then []
      else if l.scanned < |l.files| then l.files[..l.scanned]
      else l.files + ScannedFiles(listings[1..])
  }

  /** Add-on files are looked at while they are listed, so a stop leaves those before it. */
  function SeenAddOns(listings: seq<Listed>): seq<DirFile> {
    if listings == [] then []
    else if listings[0].outcome == Stopped then listings[0].files
    else listings[0].files + SeenAddOns(listings[1..])
  }

  predicate NoneStopped(listings: seq<Listed>) {
    forall i :: 0 <= i < |listings| ==> listings[i].outcome != Stopped
  }

  // ----- the phases of a scan

  function Unseen(games: GameFiles): GameFiles {
    map p | p in games :: games[p].(seen := false)
  }

  function UnseenAddOns(addOns: AddOnFiles): AddOnFiles {
    map p | p in addOns :: addOns[p].(seen := false)
  }

  /** `BeginScan`. */
  function Begun(s: State): State {
    WithGames(s, Unseen(s.records.gameFiles)).(reports := [])
  }

  function KeptAddOns(addOns: AddOnFiles): AddOnFiles {
    map p | p in addOns && addOns[p].seen :: addOns[p]
  }

  function KeptGames(games: GameFiles): GameFiles {
    map p | p in games && games[p].seen :: games[p]
  }

  function ScanAddOnDirectories(env: Env, s: State, listings: seq<Listed>): State {
    var s' := AddOnAll(env, WithAddOns(s, UnseenAddOns(s.records.addOnFiles)), SeenAddOns(listings));
    if NoneStopped(listings) && AllComplete(listings) then
      var kept := KeptAddOns(s'.records.addOnFiles);
      WithAddOns(s', kept).(dirty := s'.dirty || kept != s'.records.addOnFiles)
    else s'
  }

  function RefreshedProgram(env: Env, p: ProgramRecord, addOns: seq<Indexed>, games: seq<Indexed>,
                            disabled: map<nat, seq<Bytes>>): ProgramRecord
  {
    var r := RefreshUpdate(env.readUpdate, p, addOns, games, disabled);
    if r.changed then Reported(r.program) else p
  }

  function RefreshedPrograms(env: Env, ps: seq<ProgramRecord>, addOns: seq<Indexed>, games: seq<Indexed>,
                             disabled: map<nat, seq<Bytes>>): (r: seq<ProgramRecord>)
    ensures |r| == |ps|
  {
    seq(|ps|, i requires 0 <= i < |ps| => RefreshedProgram(env, ps[i], addOns, games, disabled))
  }

  function RefreshedGame(env: Env, g: GameFileRecord, addOns: seq<Indexed>, games: seq<Indexed>,
                         disabled: map<nat, seq<Bytes>>): GameFileRecord
  {
    if g.isGame && g.seen then g.(programs := RefreshedPrograms(env, g.programs, addOns, games, disabled)) else g
  }

  function RefreshedGames(env: Env, m: GameFiles, addOns: seq<Indexed>, games: seq<Indexed>,
                          disabled: map<nat, seq<Bytes>>): GameFiles
  {
    map p | p in m :: RefreshedGame(env, m[p], addOns, games, disabled)
  }

  /** Which programs are reported again, in the order of the paths. */
  function RefreshReports(env: Env, files: seq<Filed<GameFileRecord>>, addOns: seq<Indexed>, games: seq<Indexed>,
                          disabled: map<nat, seq<Bytes>>): seq<Report>
  {
    if files == [] then []
    else
      var last := files[|files| - 1];
      RefreshReports(env, files[..|files| - 1], addOns, games, disabled)
        + (if last.record.isGame && last.record.seen
           then ProgramReports(env, last.path, last.record.programs, addOns, games, disabled) else [])
  }

  function ProgramReports(env: Env, path: Path, ps: seq<ProgramRecord>, addOns: seq<Indexed>, games: seq<Indexed>,
                          disabled: map<nat, seq<Bytes>>): seq<Report>
  {
    if ps == [] then []
    else
      var last := ps[|ps| - 1];
      var r := RefreshUpdate(env.readUpdate, last, addOns, games, disabled);
      ProgramReports(env, path, ps[..|ps| - 1], addOns, games, disabled)
        + (if r.changed then [Report(path, |ps| - 1, Overlay(r.program.base, r.program.update), true)] else [])
  }

  /** `FinishScan` of a completed scan, up to saving. */
  ghost function Finished(env: Env, s: State, listingComplete: bool, disabled: map<nat, seq<Bytes>>): State {
    var kept := if listingComplete then KeptGames(s.records.gameFiles) else s.records.gameFiles;
    var addOns := AddOnIndex(InOrder(s.records.addOnFiles));
    var games := GameIndex(InOrder(kept));
    var refreshed := RefreshedGames(env, kept, addOns, games, disabled);
    var told := RefreshReports(env, InOrder(kept), addOns, games, disabled);
    WithGames(s, refreshed).(
      dirty := s.dirty || kept != s.records.gameFiles || told != [],
      reports := s.reports + told)
  }

  datatype Input = Input(
    directories: seq<GameDirectory>, addOnListings: seq<Listed>, gameListings: seq<Listed>,
      disabled: map<nat, seq<Bytes>>)

  /** A scan is completed if nothing was asked to stop. */
  predicate Completed(input: Input) {
    NoneStopped(input.addOnListings) && AllRan(input.gameListings)
  }

  function Prepared(s: State, input: Input): State {
    if s.records.gameDirectories == input.directories then Begun(s)
    else Begun(s).(records := Begun(s).records.(gameDirectories := input.directories), dirty := true)
  }

  /** A scan up to `FinishScan`. */
  function Gathered(env: Env, s: State, input: Input): State {
    var listed := ScanAddOnDirectories(env, Prepared(s, input), input.addOnListings);
    if NoneStopped(input.addOnListings) then ScanAll(env, listed, ScannedFiles(input.gameListings)) else listed
  }

  /** `Scan`, up to saving. */
  ghost function Scan(env: Env, s: State, input: Input): State {
    var gathered := Gathered(env, s, input);
    if Completed(input) then Finished(env, gathered, AllComplete(input.gameListings), input.disabled) else gathered
  }
}
