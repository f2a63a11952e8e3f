/** Single runs of the firmware install transaction: those that lose a firmware when something
    fails that must not, those that mix two packages, and one that goes through. */
module FirmwareRuns {
  import opened FirmwareModel

  predicate Uncommitted(run: seq<State>) {
    forall i :: 0 < i < |run| ==> !Commits(run[i - 1], run[i])
  }

  /** A run may go on with a step; the result names the longer run. */
  ghost function Then(cfg: Config, run: seq<State>, s: State): (longer: seq<State>)
    requires run != [] && IsRun(cfg, run) && Uncommitted(run)
    requires Next(cfg, run[|run| - 1], s) && !Commits(run[|run| - 1], s)
    ensures IsRun(cfg, longer) && Uncommitted(longer) && longer != []
    ensures longer[0] == run[0] && longer[|longer| - 1] == s
  {
    run + [s]
  }

  /** A package of two files: a system update description and a version. */
  function Package(update: Data, version: Data): Files {
    map["a.nca" := update, "b.nca" := version]
  }

  /** The files of `before` with those of the package over them. */
  function Over(before: Files, update: Data, version: Data): (r: Files)
    ensures before == map[] ==> r == Package(update, version)
  {
    before["a.nca" := update]["b.nca" := version]
  }

  lemma OverIsFirmware(cfg: Config, before: Files, update: Data, version: Data)
    requires cfg.isSystemUpdate(update) && cfg.hasVersion(version)
    ensures IsFirmware(cfg, Over(before, update, version))
  {
    assert "a.nca" != "b.nca" by { assert "a.nca"[0] != "b.nca"[0]; }
    var files := Over(before, update, version);
    assert files["a.nca"] == update && files["b.nca"] == version;
  }

  /** The package is staged over whatever the staging directory holds, and inspected. */
  lemma StagePackage(cfg: Config, run: seq<State>, before: Files, update: Data, version: Data)
    returns (longer: seq<State>)
    requires run != [] && IsRun(cfg, run) && Uncommitted(run)
    requires run[|run| - 1].phase.Filling? && run[|run| - 1].disk.installing == Present(before)
    requires cfg.isSystemUpdate(update) && cfg.hasVersion(version)
    ensures IsRun(cfg, longer) && Uncommitted(longer) && longer != [] && longer[0] == run[0]
    ensures var staged := Over(before, update, version);
            longer[|longer| - 1] == State(Inspected(staged), run[|run| - 1].disk.(installing := Present(staged)))
  {
    OverIsFirmware(cfg, before, update, version);
    hide IsRun, Uncommitted, IsFirmware;
    var disk := run[|run| - 1].disk;
    var once := Written(disk, "a.nca", update);
    var twice := Written(once, "b.nca", version);
    longer := Then(cfg, run, State(Filling, once));
    longer := Then(cfg, longer, State(Filling, twice));
    longer := Then(cfg, longer, State(Inspected(Over(before, update, version)), twice));
  }

  /** From a start with nothing but a firmware installed to an empty staging directory. */
  lemma ReachFilling(cfg: Config, installed: Files) returns (run: seq<State>)
    ensures IsRun(cfg, run) && Uncommitted(run) && run != []
    ensures run[0] == State(Off, Disk(Present(installed), Absent, Absent))
    ensures run[|run| - 1] == State(Filling, Disk(Present(installed), Present(map[]), Absent))
  {
    var disk := Disk(Present(installed), Absent, Absent);
    run := [State(Off, disk)];
    assert IsRun(cfg, run) && Uncommitted(run);
    hide IsRun, Uncommitted;
    run := Then(cfg, run, State(RecoverClearStaging, disk));
    run := Then(cfg, run, State(RecoverDecide, disk));
    run := Then(cfg, run, State(Idle, disk));
    run := Then(cfg, run, State(PrepareClear, disk));
    run := Then(cfg, run, State(PrepareCreate, disk));
    run := Then(cfg, run, State(Filling, disk.(installing := Present(map[]))));
  }

  /** The first half of a commit: the installed firmware is moved out of the way. */
  lemma SetAside(cfg: Config, run: seq<State>, installed: Files, files: Files) returns (longer: seq<State>)
    requires run != [] && IsRun(cfg, run) && Uncommitted(run)
    requires run[|run| - 1] == State(Inspected(files), Disk(Present(installed), Present(files), Absent))
    ensures IsRun(cfg, longer) && Uncommitted(longer) && longer != [] && longer[0] == run[0]
    ensures longer[|longer| - 1]
         == State(CommitReplace(files, true), Disk(Absent, Present(files), Present(installed)))
  {
    hide IsRun, Uncommitted;
    var disk := run[|run| - 1].disk;
    longer := Then(cfg, run, State(CommitClear(files), disk));
    longer := Then(cfg, longer, State(CommitSetAside(files), disk));
    longer := Then(cfg, longer, State(CommitReplace(files, true), Disk(Absent, Present(files), Present(installed))));
  }

  /** Neither rename of the replacement works: the firmware stays set aside. */
  lemma FailToReplace(cfg: Config, run: seq<State>, installed: Files, files: Files) returns (longer: seq<State>)
    requires cfg.putBackMayFail && run != [] && IsRun(cfg, run) && Uncommitted(run)
    requires run[|run| - 1] == State(Inspected(files), Disk(Present(installed), Present(files), Absent))
    ensures IsRun(cfg, longer) && Uncommitted(longer) && longer != [] && longer[0] == run[0]
    ensures longer[|longer| - 1] == State(Idle, Disk(Absent, Present(files), Present(installed)))
  {
    hide IsRun, Uncommitted;
    var aside := Disk(Absent, Present(files), Present(installed));
    longer := SetAside(cfg, run, installed, files);
    longer := Then(cfg, longer, State(CommitPutBack, aside));
    longer := Then(cfg, longer, State(Cleanup, aside));
    longer := Then(cfg, longer, State(Idle, aside));
  }

  /** A second attempt stages what is already there. */
  lemma StageAgain(cfg: Config, run: seq<State>, files: Files) returns (longer: seq<State>)
    requires run != [] && IsRun(cfg, run) && Uncommitted(run) && IsFirmware(cfg, files)
    requires run[|run| - 1].phase == Idle && run[|run| - 1].disk.installing == Present(files)
    ensures IsRun(cfg, longer) && Uncommitted(longer) && longer != [] && longer[0] == run[0]
    ensures longer[|longer| - 1] == State(Inspected(files), run[|run| - 1].disk)
  {
    hide IsRun, Uncommitted, IsFirmware;
    var disk := run[|run| - 1].disk;
    longer := Then(cfg, run, State(PrepareClear, disk));
    longer := Then(cfg, longer, State(PrepareCreate, disk));
    longer := Then(cfg, longer, State(Filling, disk));
    longer := Then(cfg, longer, State(Inspected(files), disk));
  }

  /** Its commit clears `registered.previous` first, and then may fail again. */
  lemma RetryAndLose(cfg: Config, run: seq<State>, installed: Files, files: Files) returns (longer: seq<State>)
    requires run != [] && IsRun(cfg, run) && Uncommitted(run) && IsFirmware(cfg, files)
    requires run[|run| - 1] == State(Idle, Disk(Absent, Present(files), Present(installed)))
    ensures IsRun(cfg, longer) && Uncommitted(longer) && longer != [] && longer[0] == run[0]
    ensures longer[|longer| - 1] == State(Idle, Disk(Absent, Present(files), Absent))
  {
    hide IsRun, Uncommitted, IsFirmware;
    var aside := run[|run| - 1].disk;
    var gone := aside.(previous := Absent);
    longer := StageAgain(cfg, run, files);
    longer := Then(cfg, longer, State(CommitClear(files), aside));
    longer := Then(cfg, longer, State(CommitClear(files), gone));
    longer := Then(cfg, longer, State(CommitReplace(files, false), gone));
    longer := Then(cfg, longer, State(Cleanup, gone));
    longer := Then(cfg, longer, State(Idle, gone));
  }

  /** If putting back may fail, a second attempt in the same session deletes the only copy:
      for every installed firmware and every package of two files there is a run without a
      commit after which the installed firmware is nowhere on the disk. */
  lemma LostWithoutPutBack(cfg: Config, installed: Files, update: Data, version: Data) returns (run: seq<State>)
    requires cfg.putBackMayFail && cfg.isSystemUpdate(update) && cfg.hasVersion(version)
    ensures LosingRun(cfg, run, installed)
  {
    hide IsRun, Uncommitted, IsFirmware;
    var files := Package(update, version);
    OverIsFirmware(cfg, map[], update, version);
    run := ReachFilling(cfg, installed);
    run := StagePackage(cfg, run, map[], update, version);
    run := FailToReplace(cfg, run, installed, files);
    run := RetryAndLose(cfg, run, installed, files);
  }

  /** From a start with the firmware alone on the disk, without a commit, to an idle program
      with nothing of it left. */
  ghost predicate LosingRun(cfg: Config, run: seq<State>, installed: Files) {
    && IsRun(cfg, run) && Uncommitted(run) && run != []
    && run[0] == State(Off, Disk(Present(installed), Absent, Absent))
    && run[|run| - 1].phase == Idle
    && run[|run| - 1].disk.registered == Absent && run[|run| - 1].disk.previous == Absent
  }

  // ----- questions that fail

  /** A crash between the two renames, and a recovery that is told that nothing was set aside. */
  lemma CrashAndMiss(cfg: Config, run: seq<State>, installed: Files, files: Files) returns (longer: seq<State>)
    requires cfg.queriesMayFail && run != [] && IsRun(cfg, run) && Uncommitted(run)
    requires run[|run| - 1] == State(Inspected(files), Disk(Present(installed), Present(files), Absent))
    ensures IsRun(cfg, longer) && Uncommitted(longer) && longer != [] && longer[0] == run[0]
    ensures longer[|longer| - 1] == State(Idle, Disk(Absent, Present(files), Present(installed)))
  {
    hide IsRun, Uncommitted;
    var disk := run[|run| - 1].disk;
    var aside := Disk(Absent, Present(files), Present(installed));
    longer := Then(cfg, run, State(CommitClear(files), disk));
    longer := Then(cfg, longer, State(CommitSetAside(files), disk));
    longer := Then(cfg, longer, State(CommitReplace(files, true), aside));
    longer := Then(cfg, longer, State(Off, aside));
    longer := Then(cfg, longer, State(RecoverClearStaging, aside));
    longer := Then(cfg, longer, State(RecoverDecide, aside));
    longer := Then(cfg, longer, State(Idle, aside));
  }

  /** If the question whether `registered.previous` is a directory may fail, every installed
      firmware can be lost although every rename that puts one back works. */
  lemma LostToDirectoryQuery(cfg: Config, installed: Files, update: Data, version: Data) returns (run: seq<State>)
    requires cfg.queriesMayFail && cfg.isSystemUpdate(update) && cfg.hasVersion(version)
    ensures LosingRun(cfg, run, installed)
  {
    hide IsRun, Uncommitted, IsFirmware;
    var files := Package(update, version);
    OverIsFirmware(cfg, map[], update, version);
    run := ReachFilling(cfg, installed);
    run := StagePackage(cfg, run, map[], update, version);
    run := CrashAndMiss(cfg, run, installed, files);
    run := RetryAndLose(cfg, run, installed, files);
  }

  /** If the question whether `registered` is empty may fail, a recovery deletes every firmware
      set aside beside an empty directory. */
  lemma LostToEmptyQuery(cfg: Config, installed: Files) returns (run: seq<State>)
    requires cfg.queriesMayFail
    ensures IsRun(cfg, run) && Uncommitted(run) && run != []
    ensures run[0] == State(Off, Disk(Present(map[]), Absent, Present(installed)))
    ensures Effective(run[0].disk) == installed
    ensures run[|run| - 1] == State(Idle, Disk(Present(map[]), Absent, Absent))
  {
    var disk := Disk(Present(map[]), Absent, Present(installed));
    var gone := disk.(previous := Absent);
    run := [State(Off, disk)];
    assert IsRun(cfg, run) && Uncommitted(run);
    hide IsRun, Uncommitted;
    run := Then(cfg, run, State(RecoverClearStaging, disk));
    run := Then(cfg, run, State(RecoverDecide, disk));
    run := Then(cfg, run, State(RecoverDropPrevious, disk));
    run := Then(cfg, run, State(RecoverDropPrevious, gone));
    run := Then(cfg, run, State(Idle, gone));
  }

  // ----- exactly when nothing is lost

  /** In every run, past recovery and between installs, the expected firmware is registered. */
  ghost predicate NeverLoses(cfg: Config) {
    forall run: seq<State>, i :: IsRun(cfg, run) && 0 <= i < |run| && run[0].phase == Off && run[i].phase == Idle ==>
      FilesOf(run[i].disk.registered) == Expected(run, i)
  }

  lemma {:induction false} UncommittedExpects(run: seq<State>, i: nat)
    requires Uncommitted(run) && i < |run|
    ensures Expected(run, i) == Effective(run[0].disk)
  {
    hide Commits, Effective;
    if i > 0 {
      UncommittedExpects(run, i - 1);
    }
  }

  lemma LosingRunLoses(cfg: Config, run: seq<State>, installed: Files)
    requires LosingRun(cfg, run, installed) && installed != map[]
    ensures !NeverLoses(cfg)
  {
    hide IsRun, Uncommitted, Expected;
    UncommittedExpects(run, |run| - 1);
  }

  /** Provided there is something to install at all: no run loses or mixes firmware exactly if
      neither the renames that put a firmware back nor the questions of a recovery can fail. */
  lemma SafeExactlyIfReliable(cfg: Config, update: Data, version: Data)
    requires cfg.isSystemUpdate(update) && cfg.hasVersion(version)
    ensures NeverLoses(cfg) <==> Reliable(cfg)
  {
    hide IsRun, Expected, LosingRun, IsFirmware;
    var installed: Files := map["old.nca" := []];
    assert "old.nca" in installed;
    if cfg.putBackMayFail {
      var run := LostWithoutPutBack(cfg, installed, update, version);
      LosingRunLoses(cfg, run, installed);
    } else if cfg.queriesMayFail {
      var run := LostToDirectoryQuery(cfg, installed, update, version);
      LosingRunLoses(cfg, run, installed);
    } else {
      forall run: seq<State>, i |
        IsRun(cfg, run) && 0 <= i < |run| && run[0].phase == Off && run[i].phase == Idle
        ensures FilesOf(run[i].disk.registered) == Expected(run, i)
      {
        NeverMixedNeverLost(cfg, run, i);
      }
    }
  }

  // ----- installs that go through

  ghost function Further(cfg: Config, run: seq<State>, s: State): (longer: seq<State>)
    requires run != [] && IsRun(cfg, run) && Next(cfg, run[|run| - 1], s)
    ensures IsRun(cfg, longer) && longer != [] && longer[0] == run[0] && longer[|longer| - 1] == s
  {
    run + [s]
  }

  lemma Replace(cfg: Config, run: seq<State>, installed: Files, files: Files) returns (longer: seq<State>)
    requires run != [] && IsRun(cfg, run) && Uncommitted(run)
    requires run[|run| - 1] == State(Inspected(files), Disk(Present(installed), Present(files), Absent))
    ensures IsRun(cfg, longer) && longer != [] && longer[0] == run[0]
    ensures longer[|longer| - 1] == State(Idle, Disk(Present(files), Absent, Absent))
  {
    hide IsRun, Uncommitted;
    var swapped := Disk(Present(files), Absent, Present(installed));
    var clean := Disk(Present(files), Absent, Absent);
    longer := SetAside(cfg, run, installed, files);
    longer := Further(cfg, longer, State(CommitDropPrevious, swapped));
    longer := Further(cfg, longer, State(CommitDropPrevious, clean));
    longer := Further(cfg, longer, State(Cleanup, clean));
    longer := Further(cfg, longer, State(Idle, clean));
  }

  /** From every installed firmware there is a run that replaces it by a package of two files
      and ends with nothing but the package on the disk. */
  lemma AnInstallCompletes(cfg: Config, installed: Files, update: Data, version: Data) returns (run: seq<State>)
    requires cfg.isSystemUpdate(update) && cfg.hasVersion(version)
    ensures IsRun(cfg, run) && run != [] && run[0] == State(Off, Disk(Present(installed), Absent, Absent))
    ensures run[|run| - 1] == State(Idle, Disk(Present(Package(update, version)), Absent, Absent))
  {
    hide IsRun, Uncommitted;
    run := ReachFilling(cfg, installed);
    run := StagePackage(cfg, run, map[], update, version);
    run := Replace(cfg, run, installed, Package(update, version));
  }

  // ----- what an earlier attempt left behind

  /** Whatever the staging directory holds when an attempt begins can be committed with the
      package: clearing it may fail, and nobody notices. */
  lemma LeftoversAreCommitted(cfg: Config, run: seq<State>, installed: Files, stale: Files, update: Data, version: Data)
    returns (longer: seq<State>)
    requires run != [] && IsRun(cfg, run) && Uncommitted(run)
    requires run[|run| - 1] == State(Idle, Disk(Present(installed), Present(stale), Absent))
    requires cfg.isSystemUpdate(update) && cfg.hasVersion(version)
    ensures IsRun(cfg, longer) && longer != [] && longer[0] == run[0]
    ensures longer[|longer| - 1] == State(Idle, Disk(Present(Over(stale, update, version)), Absent, Absent))
  {
    hide IsRun, Uncommitted;
    var disk := run[|run| - 1].disk;
    longer := Then(cfg, run, State(PrepareClear, disk));
    longer := Then(cfg, longer, State(PrepareCreate, disk));
    longer := Then(cfg, longer, State(Filling, disk));
    longer := StagePackage(cfg, longer, stale, update, version);
    longer := Replace(cfg, longer, installed, Over(stale, update, version));
  }

  /** An attempt that is given up may leave a file in the staging directory. */
  lemma LeaveBehind(cfg: Config, installed: Files, name: Name, data: Data) returns (run: seq<State>)
    ensures IsRun(cfg, run) && Uncommitted(run) && run != []
    ensures run[0] == State(Off, Disk(Present(installed), Absent, Absent))
    ensures run[|run| - 1] == State(Idle, Disk(Present(installed), Present(map[name := data]), Absent))
  {
    hide IsRun, Uncommitted;
    run := ReachFilling(cfg, installed);
    var stale := Written(run[|run| - 1].disk, name, data);
    assert map[][name := data] == map[name := data];
    run := Then(cfg, run, State(Filling, stale));
    run := Then(cfg, run, State(Cleanup, stale));
    run := Then(cfg, run, State(Idle, stale));
  }

  /** So two packages can be mixed, even if everything that can be relied on works: from every
      installed firmware there is a run that registers a file of an abandoned attempt beside a
      package that has no file of that name. */
  lemma PackagesCanMix(cfg: Config, installed: Files, name: Name, data: Data, update: Data, version: Data)
    returns (run: seq<State>)
    requires cfg.isSystemUpdate(update) && cfg.hasVersion(version) && name !in Package(update, version)
    ensures IsRun(cfg, run) && run != [] && run[0] == State(Off, Disk(Present(installed), Absent, Absent))
    ensures var last := run[|run| - 1];
            && last.phase == Idle && last.disk.registered.Present?
            && last.disk.registered.files == Package(update, version)[name := data] != Package(update, version)
  {
    hide IsRun, Uncommitted;
    run := LeaveBehind(cfg, installed, name, data);
    run := LeftoversAreCommitted(cfg, run, installed, map[name := data], update, version);
    assert Over(map[name := data], update, version) == Package(update, version)[name := data];
  }
}
