/** The firmware install transaction of src/nxemu-loader/firmware_install.cpp as a transition
    system: what one file-system call, one crash or one start of the emulator may do to the
    three directories. Renames are atomic; removing a directory tree is not, and its errors
    are ignored. */
module FirmwareModel {

  type Name = string
  type Data = seq<int>
  type Files = map<Name, Data>

  datatype Dir = Absent | Present(files: Files)

  datatype Disk = Disk(registered: Dir, installing: Dir, previous: Dir)

  /** What the model takes as given: which files an inspection recognises, whether the renames
      that put a firmware back can fail, and whether the questions of a recovery about
      `registered.previous` and about the emptiness of `registered` can. */
  datatype Config = Config(
    isSystemUpdate: Data -> bool, hasVersion: Data -> bool, putBackMayFail: bool, queriesMayFail: bool)

  /** Neither can happen. */
  predicate Reliable(cfg: Config) {
    !cfg.putBackMayFail && !cfg.queriesMayFail
  }

  /** Where the program stands. `files` is what the inspection of the staging directory saw. */
  datatype Phase =
    | Off
    | RecoverClearStaging | RecoverDecide | RecoverRemoveEmpty | RecoverPutBack | RecoverDropPrevious
    | Idle
    | PrepareClear | PrepareCreate | Filling
    | Inspected(files: Files)
    | CommitClear(files: Files) | CommitSetAside(files: Files) | CommitReplace(files: Files, hadInstalled: bool)
    | CommitPutBack | CommitDropPrevious
    | Cleanup

  datatype State = State(phase: Phase, disk: Disk)

  function FilesOf(d: Dir): Files {
    if d.Present? then d.files else map[]
  }

  /** `Inspection::IsFirmware`: a system update description and a readable version. */
  predicate IsFirmware(cfg: Config, files: Files) {
    && (exists n :: n in files && cfg.isSystemUpdate(files[n]))
    && (exists n :: n in files && cfg.hasVersion(files[n]))
  }

  /** The firmware a recovery started now would leave installed. */
  function Effective(d: Disk): Files {
    if d.previous.Present? && FilesOf(d.registered) == map[] then d.previous.files else FilesOf(d.registered)
  }

  // ----- single calls

  /** Some entries of a directory, and at last the directory itself, are gone. */
  predicate PartlyRemoved(d: Dir, d': Dir) {
    d.Present?
      && (d'.Present? ==> d'.files.Keys <= d.files.Keys && forall n :: n in d'.files ==> d'.files[n] == d.files[n])
  }

  /** A rename onto `target` can only succeed when nothing, or an empty directory, is there. */
  predicate Replaceable(target: Dir) {
    FilesOf(target) == map[]
  }

  predicate RemovesStaging(s: State, s': State) {
    PartlyRemoved(s.disk.installing, s'.disk.installing) && s' == s.(disk := s.disk.(installing := s'.disk.installing))
  }

  predicate RemovesPrevious(s: State, s': State) {
    PartlyRemoved(s.disk.previous, s'.disk.previous) && s' == s.(disk := s.disk.(previous := s'.disk.previous))
  }

  predicate MovesOn(s: State, s': State, phase: Phase) {
    s' == s.(phase := phase)
  }

  /** A staged file is created, truncated or written to. */
  ghost predicate Writes(s: State, s': State) {
    exists n, data :: s' == s.(disk := Written(s.disk, n, data))
  }

  function Written(d: Disk, n: Name, data: Data): Disk {
    d.(installing := Present(FilesOf(d.installing)[n := data]))
  }

  /** `RecoverInterrupted`, call by call. A question that fails is answered no: whether
      `registered` exists may always fail, whether `registered.previous` is a directory and
      whether `registered` is empty only if the configuration says so. */
  predicate RecoveryStep(cfg: Config, s: State, s': State) {
    var d := s.disk;
    match s.phase
    case Off => MovesOn(s, s', RecoverClearStaging)
    case RecoverClearStaging => RemovesStaging(s, s') || MovesOn(s, s', RecoverDecide)
    case RecoverDecide =>
      || ((!d.previous.Present? || cfg.queriesMayFail) && MovesOn(s, s', Idle))
      || (d.previous.Present? && MovesOn(s, s', RecoverRemoveEmpty))
      || (d.previous.Present? && FilesOf(d.registered) != map[] && MovesOn(s, s', RecoverDropPrevious))
      || (d.previous.Present? && d.registered.Present? && cfg.queriesMayFail && MovesOn(s, s', RecoverDropPrevious))
    case RecoverRemoveEmpty =>
      || (FilesOf(d.registered) == map[] && s' == State(RecoverPutBack, d.(registered := Absent)))
      || MovesOn(s, s', RecoverPutBack)
    case RecoverPutBack =>
      || (Replaceable(d.registered) && s' == State(Idle, d.(registered := d.previous, previous := Absent)))
      || ((cfg.putBackMayFail || !Replaceable(d.registered)) && MovesOn(s, s', Idle))
    case RecoverDropPrevious => RemovesPrevious(s, s') || MovesOn(s, s', Idle)
    case _ => false
  }

  /** `InstallStaged` up to the commit, with the other code that runs between installs: it may
      create an empty `registered` directory. */
  ghost predicate StagingStep(cfg: Config, s: State, s': State) {
    var d := s.disk;
    match s.phase
    case Idle =>
      || MovesOn(s, s', PrepareClear)
      || (d.registered == Absent && s' == State(Idle, d.(registered := Present(map[]))))
    case PrepareClear => RemovesStaging(s, s') || MovesOn(s, s', PrepareCreate)
    case PrepareCreate =>
      || s' == State(Filling, d.(installing := Present(FilesOf(d.installing))))
      || MovesOn(s, s', Cleanup)
    case Filling =>
      || Writes(s, s')
      || (IsFirmware(cfg, FilesOf(d.installing)) && MovesOn(s, s', Inspected(FilesOf(d.installing))))
      || MovesOn(s, s', Cleanup)
    case Inspected(files) => MovesOn(s, s', CommitClear(files)) || MovesOn(s, s', Cleanup)
    case Cleanup => RemovesStaging(s, s') || MovesOn(s, s', Idle)
    case _ => false
  }

  /** `Staging::Commit`, call by call. */
  predicate CommitStep(cfg: Config, s: State, s': State) {
    var d := s.disk;
    match s.phase
    case CommitClear(files) =>
      || RemovesPrevious(s, s')
      || (d.registered.Present? && MovesOn(s, s', CommitSetAside(files)))
      || MovesOn(s, s', CommitReplace(files, false))
    case CommitSetAside(files) =>
      || (Replaceable(d.previous) &&
          s' == State(CommitReplace(files, true), d.(registered := Absent, previous := d.registered)))
      || MovesOn(s, s', Cleanup)
    case CommitReplace(files, hadInstalled) =>
      || (Replaceable(d.registered) &&
          s' == State(CommitDropPrevious, d.(registered := d.installing, installing := Absent)))
      || MovesOn(s, s', if hadInstalled then CommitPutBack else Cleanup)
    case CommitPutBack =>
      || s' == State(Cleanup, d.(registered := d.previous, previous := Absent))
      || (cfg.putBackMayFail && MovesOn(s, s', Cleanup))
    case CommitDropPrevious => RemovesPrevious(s, s') || MovesOn(s, s', Cleanup)
    case _ => false
  }

  /** One step, or a crash, which can come before any call and inside any removal. */
  ghost predicate Next(cfg: Config, s: State, s': State) {
    RecoveryStep(cfg, s, s') || StagingStep(cfg, s, s') || CommitStep(cfg, s, s') || MovesOn(s, s', Off)
  }

  ghost predicate IsRun(cfg: Config, run: seq<State>) {
    forall i :: 0 < i < |run| ==> Next(cfg, run[i - 1], run[i])
  }

  /** The second rename of the commit, the only step that installs anything. */
  predicate Commits(s: State, s': State) {
    s.phase.CommitReplace? && s'.phase.CommitDropPrevious?
  }

  // ----- what every step keeps

  /** A firmware set aside is never the only copy. */
  predicate Rest(d: Disk) {
    d.previous.Present? ==> FilesOf(d.registered) != map[]
  }

  predicate Staged(cfg: Config, d: Disk, files: Files) {
    d.installing == Present(files) && IsFirmware(cfg, files)
  }

  predicate Inv(cfg: Config, s: State) {
    var d := s.disk;
    match s.phase
    case Off => true
    case RecoverClearStaging => true
    case RecoverDecide => true
    case RecoverRemoveEmpty => d.previous.Present?
    case RecoverPutBack => d.previous.Present?
    case RecoverDropPrevious => FilesOf(d.registered) != map[]
    case Idle => Rest(d)
    case PrepareClear => Rest(d)
    case PrepareCreate => Rest(d)
    case Filling => Rest(d) && d.installing.Present?
    case Inspected(files) => Rest(d) && Staged(cfg, d, files)
    case CommitClear(files) => Rest(d) && Staged(cfg, d, files)
    case CommitSetAside(files) => Rest(d) && Staged(cfg, d, files) && d.registered.Present?
    case CommitReplace(files, had) =>
      Staged(cfg, d, files) && if had then d.registered == Absent && d.previous.Present? else Rest(d)
    case CommitPutBack => d.registered == Absent && d.previous.Present?
    case CommitDropPrevious => FilesOf(d.registered) != map[]
    case Cleanup => Rest(d)
  }

  lemma FirmwareIsNotEmpty(cfg: Config, files: Files)
    requires IsFirmware(cfg, files)
    ensures files != map[]
  {
  }

  /** Every step keeps the invariant, and only the second rename of a commit changes what is
      effectively installed: to exactly what the inspection saw. */
  lemma StepKeeps(cfg: Config, s: State, s': State)
    requires Inv(cfg, s) && Next(cfg, s, s') && Reliable(cfg)
    ensures Inv(cfg, s')
    ensures Effective(s'.disk) == if Commits(s, s') then s.phase.files else Effective(s.disk)
  {
    hide IsFirmware;
    if s.phase.CommitReplace? {
      FirmwareIsNotEmpty(cfg, s.phase.files);
    }
    if MovesOn(s, s', Off) {
    } else if RecoveryStep(cfg, s, s') {
    } else if StagingStep(cfg, s, s') {
    } else {
      assert CommitStep(cfg, s, s');
    }
  }

  /** What should be installed after `i` steps: the firmware of the start, or that of the
      last commit. */
  function Expected(run: seq<State>, i: nat): Files
    requires i < |run|
  {
    if i == 0 then Effective(run[0].disk)
    else if Commits(run[i - 1], run[i]) then run[i - 1].phase.files
    else Expected(run, i - 1)
  }

  lemma {:induction false} RunKeeps(cfg: Config, run: seq<State>, i: nat)
    requires IsRun(cfg, run) && i < |run| && run[0].phase == Off && Reliable(cfg)
    ensures Inv(cfg, run[i]) && Effective(run[i].disk) == Expected(run, i)
  {
    if i > 0 {
      hide Next, Inv, Effective, Commits;
      RunKeeps(cfg, run, i - 1);
      StepKeeps(cfg, run[i - 1], run[i]);
    } else {
      assert Inv(cfg, run[0]);
    }
  }

  /** What a commit installs is all of the staging directory, and that passed the inspection. */
  lemma CommitsWhatWasStaged(cfg: Config, s: State, s': State)
    requires Inv(cfg, s) && Commits(s, s')
    ensures Staged(cfg, s.disk, s.phase.files)
  {
    hide IsFirmware;
  }

  /** Every firmware a run installs was complete in the staging directory. */
  lemma {:induction false} ExpectedIsComplete(cfg: Config, run: seq<State>, i: nat)
    requires IsRun(cfg, run) && i < |run| && run[0].phase == Off && Reliable(cfg)
    ensures || Expected(run, i) == Effective(run[0].disk)
            || exists j :: 0 < j <= i && Commits(run[j - 1], run[j])
                && Staged(cfg, run[j - 1].disk, Expected(run, i))
  {
    if i > 0 {
      hide Next, Effective, IsFirmware, IsRun, Inv, Commits;
      if Commits(run[i - 1], run[i]) {
        RunKeeps(cfg, run, i - 1);
        CommitsWhatWasStaged(cfg, run[i - 1], run[i]);
      } else {
        ExpectedIsComplete(cfg, run, i - 1);
      }
    }
  }

  /** Over every sequence of install attempts, crashes at any point and recoveries: whenever
      the program is past its recovery and between installs, `registered` holds exactly what
      the last commit staged, complete and inspected, or else what was there at the start:
      never a part of either, and never files of both. */
  lemma NeverMixedNeverLost(cfg: Config, run: seq<State>, i: nat)
    requires IsRun(cfg, run) && i < |run| && run[0].phase == Off && Reliable(cfg)
    requires run[i].phase == Idle
    ensures FilesOf(run[i].disk.registered) == Expected(run, i)
    ensures || Expected(run, i) == Effective(run[0].disk)
            || exists j :: 0 < j <= i && Commits(run[j - 1], run[j])
                && Staged(cfg, run[j - 1].disk, Expected(run, i))
  {
    RunKeeps(cfg, run, i);
    ExpectedIsComplete(cfg, run, i);
  }

  /** Clearing `registered.previous` in front of a commit changes what is effectively
      installed exactly when it held the only copy. */
  lemma ClearingIsSafe(d: Disk)
    ensures Effective(d.(previous := Absent)) == Effective(d) <==> Rest(d) || FilesOf(d.previous) == map[]
  {
  }
}
