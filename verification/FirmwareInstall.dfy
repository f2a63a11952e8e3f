/** The class `Staging` and the functions `InstallStaged` and `RecoverInterrupted` of
    src/nxemu-loader/firmware_install.cpp, as methods that change the three directories call by
    call. The ghost field `trace` records the state before and after every call, so each of its
    prefixes is a point at which a crash may come. */
module FirmwareInstall {
  import opened FirmwareModel

  datatype Status =
    Installed | Cancelled | SourceUnreadable | NotFirmware | StorageUnavailable | CopyFailed | ReplaceFailed

  /** A file of the package under the name it is registered under, its content, and the offset
      from which reading it fails, if that is before its end. */
  datatype Entry = Entry(name: Name, content: Data, failsAt: nat)

  const BUFFER_SIZE: nat := 1048576

  /** What reading a file yields until a read yields nothing: a failed read looks like the end. */
  function Yield(e: Entry): Data {
    if e.failsAt < |e.content| then e.content[..e.failsAt] else e.content
  }

  /** How many bytes one call of `read` brings into the buffer. */
  function Read(e: Entry, offset: nat): (size: nat)
    ensures size <= BUFFER_SIZE && (offset <= |Yield(e)| ==> offset + size <= |Yield(e)|)
    ensures offset < |Yield(e)| <==> size > 0
  {
    if |Yield(e)| <= offset then 0
    else if |Yield(e)| - offset < BUFFER_SIZE then |Yield(e)| - offset
    else BUFFER_SIZE
  }

  /** Everything of a file arrives exactly if no read fails before its end. */
  lemma YieldIsContent(e: Entry)
    ensures Yield(e) == e.content <==> e.failsAt >= |e.content|
  {
  }

  /** The staged files after writing the entries in order: a later entry replaces an earlier
      one of the same name. */
  function Overlay(files: Files, entries: seq<Entry>): Files {
    if entries == [] then files
    else Overlay(files, entries[..|entries| - 1])[entries[|entries| - 1].name := Yield(entries[|entries| - 1])]
  }

  /** No later entry has the name of the one at `i`. */
  predicate LastOfName(entries: seq<Entry>, i: nat)
    requires i < |entries|
  {
    forall j :: i < j < |entries| ==> entries[j].name != entries[i].name
  }

  predicate Named(entries: seq<Entry>, n: Name) {
    exists i :: 0 <= i < |entries| && entries[i].name == n
  }

  predicate SubFiles(some: Files, all: Files) {
    some.Keys <= all.Keys && forall n :: n in some ==> some[n] == all[n]
  }

  lemma NamedLast(entries: seq<Entry>, n: Name)
    requires entries != []
    ensures Named(entries, n) <==> Named(entries[..|entries| - 1], n) || entries[|entries| - 1].name == n
  {
    var front := entries[..|entries| - 1];
    if Named(front, n) {
      var i :| 0 <= i < |front| && front[i].name == n;
      assert entries[i].name == n;
    }
    if Named(entries, n) && entries[|entries| - 1].name != n {
      var i :| 0 <= i < |entries| && entries[i].name == n;
      assert front[i].name == n;
    }
  }

  lemma {:induction false} LastIsStaged(files: Files, entries: seq<Entry>, i: nat)
    requires i < |entries| && LastOfName(entries, i)
    ensures entries[i].name in Overlay(files, entries)
    ensures Overlay(files, entries)[entries[i].name] == Yield(entries[i])
  {
    hide Yield;
    if i < |entries| - 1 {
      LastIsStaged(files, entries[..|entries| - 1], i);
    }
  }

  lemma {:induction false} OthersStay(files: Files, entries: seq<Entry>, n: Name)
    ensures Named(entries, n) ==> n in Overlay(files, entries)
    ensures !Named(entries, n) ==> (n in Overlay(files, entries) <==> n in files)
    ensures !Named(entries, n) && n in files ==> Overlay(files, entries)[n] == files[n]
  {
    hide Yield;
    if entries != [] {
      NamedLast(entries, n);
      hide Named;
      OthersStay(files, entries[..|entries| - 1], n);
    }
  }

  /** Every entry that no later one replaces is there as it was read, and nothing else is new. */
  lemma OverlayHolds(files: Files, entries: seq<Entry>)
    ensures forall i :: 0 <= i < |entries| && LastOfName(entries, i) ==>
              entries[i].name in Overlay(files, entries)
                && Overlay(files, entries)[entries[i].name] == Yield(entries[i])
    ensures forall n :: !Named(entries, n) ==> (n in Overlay(files, entries) <==> n in files)
    ensures forall n :: !Named(entries, n) && n in files ==> Overlay(files, entries)[n] == files[n]
    ensures forall n :: Named(entries, n) ==> n in Overlay(files, entries)
  {
    hide Yield, Named, LastOfName, Overlay;
    forall i | 0 <= i < |entries| && LastOfName(entries, i)
      ensures entries[i].name in Overlay(files, entries)
      ensures Overlay(files, entries)[entries[i].name] == Yield(entries[i])
    {
      LastIsStaged(files, entries, i);
    }
    forall n
      ensures Named(entries, n) ==> n in Overlay(files, entries)
      ensures !Named(entries, n) ==> (n in Overlay(files, entries) <==> n in files)
      ensures !Named(entries, n) && n in files ==> Overlay(files, entries)[n] == files[n]
    {
      OthersStay(files, entries, n);
    }
  }

  /** The names of a package stand for files whatever was there before. */
  lemma {:induction false} NamedAreReplaced(files: Files, other: Files, entries: seq<Entry>, n: Name)
    requires Named(entries, n)
    ensures n in Overlay(files, entries) && n in Overlay(other, entries)
    ensures Overlay(files, entries)[n] == Overlay(other, entries)[n]
  {
    hide Yield;
    NamedLast(entries, n);
    if entries[|entries| - 1].name != n {
      NamedAreReplaced(files, other, entries[..|entries| - 1], n);
    }
  }

  /** The staged files are exactly the package if and only if everything left over from an
      earlier attempt has the name of one of its files. */
  lemma OverlayIsPackage(leftover: Files, entries: seq<Entry>)
    ensures Overlay(leftover, entries) == Overlay(map[], entries) <==>
            forall n :: n in leftover ==> Named(entries, n)
  {
    hide Overlay, Named;
    OverlayHolds(leftover, entries);
    OverlayHolds(map[], entries);
    if forall n :: n in leftover ==> Named(entries, n) {
      forall n
        ensures n in Overlay(leftover, entries) <==> n in Overlay(map[], entries)
        ensures n in Overlay(leftover, entries) ==> Overlay(leftover, entries)[n] == Overlay(map[], entries)[n]
      {
        if Named(entries, n) {
          NamedAreReplaced(leftover, map[], entries, n);
        }
      }
    } else {
      var n :| n in leftover && !Named(entries, n);
      assert n in Overlay(leftover, entries) && n !in Overlay(map[], entries);
    }
  }

  /** The package as it would be read without a failure. */
  function Whole(entries: seq<Entry>): (r: seq<Entry>)
    ensures |r| == |entries|
  {
    seq(|entries|, i requires 0 <= i < |entries| => entries[i].(failsAt := |entries[i].content|))
  }

  lemma {:induction false} SameNames(entries: seq<Entry>, n: Name)
    ensures Named(Whole(entries), n) <==> Named(entries, n)
  {
    if Named(entries, n) {
      var i :| 0 <= i < |entries| && entries[i].name == n;
      assert Whole(entries)[i].name == n;
    }
  }

  lemma LastOfNameExists(entries: seq<Entry>, n: Name) returns (i: nat)
    requires Named(entries, n)
    ensures i < |entries| && entries[i].name == n && LastOfName(entries, i)
  {
    NamedLast(entries, n);
    if entries[|entries| - 1].name == n {
      i := |entries| - 1;
    } else {
      i := LastOfNameExists(entries[..|entries| - 1], n);
      assert forall j :: i < j < |entries| - 1 ==> entries[j] == entries[..|entries| - 1][j];
    }
  }

  /** What is staged is the content of the package if and only if no file that counts has a read
      that fails before its end. */
  lemma StagedIsWhole(files: Files, entries: seq<Entry>)
    ensures Overlay(files, entries) == Overlay(files, Whole(entries)) <==>
            forall i :: 0 <= i < |entries| && LastOfName(entries, i) ==> entries[i].failsAt >= |entries[i].content|
  {
    hide Overlay, Named, Yield;
    OverlayHolds(files, entries);
    OverlayHolds(files, Whole(entries));
    forall i | 0 <= i < |entries| && LastOfName(entries, i)
      ensures LastOfName(Whole(entries), i) && Yield(Whole(entries)[i]) == entries[i].content
      ensures Yield(entries[i]) == entries[i].content <==> entries[i].failsAt >= |entries[i].content|
      ensures Overlay(files, Whole(entries))[entries[i].name] == entries[i].content
    {
      YieldIsContent(entries[i]);
      YieldIsContent(Whole(entries)[i]);
      assert Whole(entries)[i].name == entries[i].name;
    }
    if forall i :: 0 <= i < |entries| && LastOfName(entries, i) ==> entries[i].failsAt >= |entries[i].content| {
      forall n
        ensures n in Overlay(files, entries) <==> n in Overlay(files, Whole(entries))
        ensures n in Overlay(files, entries) ==> Overlay(files, entries)[n] == Overlay(files, Whole(entries))[n]
      {
        SameNames(entries, n);
        if Named(entries, n) {
          var i := LastOfNameExists(entries, n);
        }
      }
    }
  }

  /** A failing file: all but its first byte is lost, and the copy is still a success. */
  lemma ReadErrorIsNotNoticed(name: Name, first: int, rest: Data)
    requires rest != []
    ensures var e := Entry(name, [first] + rest, 1);
            Overlay(map[], [e]) == map[name := [first]] != Overlay(map[], Whole([e]))
  {
    var e := Entry(name, [first] + rest, 1);
    assert [e][..0] == [] && Yield(e) == [first];
    assert LastOfName([e], 0);
    StagedIsWhole(map[], [e]);
  }

  class Installer {
    var disk: Disk
    /** How many calls of the file system were made, and how often the user was asked. */
    var clock: nat
    var asked: nat
    const cfg: Config
    /** Whether each call of the file system fails, and whether the user then goes on. */
    const faults: nat -> bool
    const agrees: nat -> bool
    ghost var phase: Phase
    ghost var trace: seq<State>

    /** The emulator starts with whatever is on the disk. */
    constructor (cfg: Config, faults: nat -> bool, agrees: nat -> bool, disk: Disk)
      ensures Valid() && this.cfg == cfg && this.disk == disk && phase == Off && trace == [State(Off, disk)]
    {
      this.cfg, this.faults, this.agrees, this.disk := cfg, faults, agrees, disk;
      clock, asked, phase, trace := 0, 0, Off, [State(Off, disk)];
    }

    ghost predicate Recorded()
      reads this`trace
    {
      trace != [] && trace[0].phase == Off && IsRun(cfg, trace)
    }

    ghost predicate Valid()
      reads this`trace, this`phase, this`disk
    {
      Recorded() && trace[|trace| - 1] == State(phase, disk)
    }

    /** Notes the state the next assignment to `disk` reaches. */
    ghost method Record(s: State)
      requires Valid() && Next(cfg, State(phase, disk), s)
      modifies this`trace, this`phase
      ensures Recorded() && trace == old(trace) + [s] && phase == s.phase
    {
      hide Next;
      trace, phase := trace + [s], s.phase;
    }

    ghost method Enter(next: Phase)
      requires Valid() && Next(cfg, State(phase, disk), State(next, disk))
      modifies this`trace, this`phase
      ensures Valid() && old(trace) <= trace && phase == next
    {
      hide Next;
      Record(State(next, disk));
    }

    /** On the way to the destructor. */
    ghost method Leave()
      requires Valid()
      requires || phase.PrepareCreate? || phase.Filling? || phase.Inspected? || phase.CommitSetAside?
               || phase.CommitDropPrevious? || (phase.CommitReplace? && !phase.hadInstalled)
      modifies this`trace, this`phase
      ensures Valid() && old(trace) <= trace && phase == Cleanup
    {
      hide IsFirmware, IsRun;
      Enter(Cleanup);
    }

    ghost method BeginCommit(files: Files)
      requires Valid() && phase == Inspected(files)
      modifies this`trace, this`phase
      ensures Valid() && old(trace) <= trace && phase == CommitClear(files)
    {
      hide IsFirmware, IsRun;
      Enter(CommitClear(files));
    }

    /** No call between two times failed. */
    ghost predicate NoFaults(from: nat, to: nat) {
      forall k :: from <= k < to ==> !faults(k)
    }

    /** The user always went on. */
    ghost predicate Agreed(from: nat, to: nat) {
      forall k :: from <= k < to ==> agrees(k)
    }

    method Fails() returns (error: bool)
      modifies this`clock
      ensures clock == old(clock) + 1 && error == faults(old(clock))
    {
      error := faults(clock);
      clock := clock + 1;
    }

    /** `Report` and the question to the user: whether to go on. */
    method Report() returns (more: bool)
      modifies this`asked
      ensures asked == old(asked) + 1 && more == agrees(old(asked))
    {
      more := agrees(asked);
      asked := asked + 1;
    }

    // ----- remove_all

    ghost predicate MayRemoveStaging() reads this`phase {
      phase.RecoverClearStaging? || phase.PrepareClear? || phase.Cleanup?
    }

    ghost predicate MayRemovePrevious() reads this`phase {
      phase.RecoverDropPrevious? || phase.CommitClear? || phase.CommitDropPrevious?
    }

    /** Entry by entry, then the directory; it stops at the first call that fails. */
    method RemoveStaging()
      requires Valid() && MayRemoveStaging()
      modifies this`disk, this`clock, this`trace, this`phase
      ensures Valid() && phase == old(phase) && old(trace) <= trace
      ensures disk == old(disk).(installing := disk.installing)
      ensures disk.installing.Present? ==> old(disk).installing.Present?
      ensures SubFiles(FilesOf(disk.installing), FilesOf(old(disk).installing))
      ensures old(clock) <= clock && (NoFaults(old(clock), clock) ==> disk.installing == Absent)
    {
      hide IsFirmware, IsRun;
      if disk.installing.Absent? {
        return;
      }
      var files := disk.installing.files;
      var error := Fails();
      while !error && files.Keys != {}
        invariant Valid() && phase == old(phase) && old(trace) <= trace
        invariant disk == old(disk).(installing := Present(files))
        invariant SubFiles(files, FilesOf(old(disk).installing))
        invariant old(clock) <= clock && (NoFaults(old(clock), clock) ==> !error)
        decreases |files.Keys|
      {
        var n :| n in files.Keys;
        var rest := files - {n};
        assert rest.Keys == files.Keys - {n};
        StagingShrinks(rest);
        files := rest;
        error := Fails();
      }
      if !error {
        StagingGoes();
      }
    }

    method StagingShrinks(rest: Files)
      requires Valid() && MayRemoveStaging()
      requires disk.installing.Present? && SubFiles(rest, disk.installing.files)
      modifies this`disk, this`trace, this`phase
      ensures Valid() && phase == old(phase) && old(trace) <= trace
      ensures disk == old(disk).(installing := Present(rest))
    {
      hide IsFirmware, IsRun;
      Record(State(phase, disk.(installing := Present(rest))));
      disk := disk.(installing := Present(rest));
    }

    method StagingGoes()
      requires Valid() && MayRemoveStaging() && disk.installing.Present?
      modifies this`disk, this`trace, this`phase
      ensures Valid() && phase == old(phase) && old(trace) <= trace
      ensures disk == old(disk).(installing := Absent)
    {
      hide IsFirmware, IsRun;
      Record(State(phase, disk.(installing := Absent)));
      disk := disk.(installing := Absent);
    }

    method RemovePrevious()
      requires Valid() && MayRemovePrevious()
      modifies this`disk, this`clock, this`trace, this`phase
      ensures Valid() && phase == old(phase) && old(trace) <= trace
      ensures disk == old(disk).(previous := disk.previous)
      ensures disk.previous.Present? ==> old(disk).previous.Present?
      ensures SubFiles(FilesOf(disk.previous), FilesOf(old(disk).previous))
      ensures old(clock) <= clock && (NoFaults(old(clock), clock) ==> disk.previous == Absent)
    {
      hide IsFirmware, IsRun;
      if disk.previous.Absent? {
        return;
      }
      var files := disk.previous.files;
      var error := Fails();
      while !error && files.Keys != {}
        invariant Valid() && phase == old(phase) && old(trace) <= trace
        invariant disk == old(disk).(previous := Present(files))
        invariant SubFiles(files, FilesOf(old(disk).previous))
        invariant old(clock) <= clock && (NoFaults(old(clock), clock) ==> !error)
        decreases |files.Keys|
      {
        var n :| n in files.Keys;
        var rest := files - {n};
        assert rest.Keys == files.Keys - {n};
        PreviousShrinks(rest);
        files := rest;
        error := Fails();
      }
      if !error {
        PreviousGoes();
      }
    }

    method PreviousShrinks(rest: Files)
      requires Valid() && MayRemovePrevious()
      requires disk.previous.Present? && SubFiles(rest, disk.previous.files)
      modifies this`disk, this`trace, this`phase
      ensures Valid() && phase == old(phase) && old(trace) <= trace
      ensures disk == old(disk).(previous := Present(rest))
    {
      hide IsFirmware, IsRun;
      Record(State(phase, disk.(previous := Present(rest))));
      disk := disk.(previous := Present(rest));
    }

    method PreviousGoes()
      requires Valid() && MayRemovePrevious() && disk.previous.Present?
      modifies this`disk, this`trace, this`phase
      ensures Valid() && phase == old(phase) && old(trace) <= trace
      ensures disk == old(disk).(previous := Absent)
    {
      hide IsFirmware, IsRun;
      Record(State(phase, disk.(previous := Absent)));
      disk := disk.(previous := Absent);
    }

    // ----- Staging

    /** An error of the removal is overwritten by the result of the creation, so what could not
        be removed stays and becomes part of the new firmware. */
    method Prepare() returns (ok: bool)
      requires Valid() && phase == Idle
      modifies this`disk, this`clock, this`trace, this`phase
      ensures Valid() && old(trace) <= trace && phase == if ok then Filling else Cleanup
      ensures disk == old(disk).(installing := disk.installing)
      ensures ok ==> disk.installing.Present?
      ensures SubFiles(FilesOf(disk.installing), FilesOf(old(disk).installing))
      ensures old(clock) <= clock
      ensures NoFaults(old(clock), clock) ==> ok && disk.installing == Present(map[])
    {
      hide IsFirmware, IsRun;
      Enter(PrepareClear);
      RemoveStaging();
      Enter(PrepareCreate);
      ok := CreateStaging();
    }

    /** `create_directories`, which leaves an existing directory as it is. */
    method CreateStaging() returns (ok: bool)
      requires Valid() && phase == PrepareCreate
      modifies this`disk, this`clock, this`trace, this`phase
      ensures Valid() && old(trace) <= trace && phase == if ok then Filling else Cleanup
      ensures disk == if ok then old(disk).(installing := Present(FilesOf(old(disk).installing))) else old(disk)
      ensures old(clock) <= clock && (NoFaults(old(clock), clock) ==> ok)
    {
      hide IsFirmware, IsRun;
      var error := Fails();
      if !error {
        ghost var made := disk.(installing := Present(FilesOf(disk.installing)));
        Record(State(Filling, made));
        disk := disk.(installing := Present(if disk.installing.Present? then disk.installing.files else map[]));
      } else {
        Leave();
      }
      ok := !error;
    }

    /** One call that leaves `data` in a staged file. */
    method Put(n: Name, data: Data)
      requires Valid() && phase == Filling && disk.installing.Present?
      modifies this`disk, this`trace, this`phase
      ensures Valid() && phase == Filling && old(trace) <= trace
      ensures disk == old(disk).(installing := Present(old(disk).installing.files[n := data]))
    {
      hide IsFirmware, IsRun;
      ghost var written := Written(disk, n, data);
      assert Writes(State(phase, disk), State(Filling, written));
      Record(State(Filling, written));
      disk := disk.(installing := Present(disk.installing.files[n := data]));
    }

    /** Copies one file in chunks of the buffer size. A read that fails is taken for the end of
        the file: unless something else goes wrong, the copy is a success. */
    method Write(e: Entry) returns (status: Status)
      requires Valid() && phase == Filling && disk.installing.Present?
      modifies this
      ensures Valid() && phase == Filling && old(trace) <= trace
      ensures disk == old(disk).(installing := disk.installing) && disk.installing.Present?
      ensures status == Installed ==> disk.installing.files == old(disk).installing.files[e.name := Yield(e)]
      ensures status in {Installed, Cancelled, CopyFailed}
      ensures old(clock) <= clock
      ensures NoFaults(old(clock), clock) ==> status != CopyFailed
      ensures old(asked) <= asked && (status == Cancelled <==> !Agreed(old(asked), asked))
    {
      hide IsFirmware, IsRun, Next, Yield, Read;
      var error := Fails();
      if !error {
        Put(e.name, []);
      }
      ghost var files := old(disk).installing.files;
      var offset := 0;
      var size := Read(e, offset);
      while !error && size != 0
        invariant offset <= |Yield(e)| && size == Read(e, offset)
        invariant Valid() && phase == Filling && old(trace) <= trace
        invariant disk == old(disk).(installing := disk.installing) && disk.installing.Present?
        invariant !error ==> disk.installing.files == files[e.name := Yield(e)[..offset]]
        invariant old(clock) <= clock && (NoFaults(old(clock), clock) ==> !error)
        invariant old(asked) <= asked && Agreed(old(asked), asked)
        decreases |Yield(e)| - offset, !error
      {
        error := Fails();
        if !error {
          Put(e.name, Yield(e)[..offset + size]);
          assert files[e.name := Yield(e)[..offset]][e.name := Yield(e)[..offset + size]]
            == files[e.name := Yield(e)[..offset + size]];
        }
        var more := Report();
        if !more {
          return Cancelled;
        }
        offset := offset + size;
        size := Read(e, offset);
      }
      assert !error ==> Yield(e)[..offset] == Yield(e);
      var closing := Fails();
      return if error || closing then CopyFailed else Installed;
    }

    /** `FillFromDirectory` and `FillFromGameCard` over the entries the listing found. */
    method Fill(entries: seq<Entry>) returns (status: Status)
      requires Valid() && phase == Filling && disk.installing.Present?
      modifies this
      ensures Valid() && phase == Filling && old(trace) <= trace
      ensures disk == old(disk).(installing := disk.installing) && disk.installing.Present?
      ensures status == Installed ==> disk.installing.files == Overlay(old(disk).installing.files, entries)
      ensures entries == [] ==> status in {NotFirmware, SourceUnreadable}
      ensures entries != [] ==> status in {Installed, SourceUnreadable, CopyFailed, Cancelled}
      ensures old(clock) <= clock
      ensures NoFaults(old(clock), clock) ==> status in {Installed, NotFirmware, Cancelled}
      ensures old(asked) <= asked && (status == Cancelled <==> !Agreed(old(asked), asked))
    {
      hide IsFirmware, IsRun, Next;
      var error := Fails();
      if error {
        return SourceUnreadable;
      }
      if entries == [] {
        return NotFirmware;
      }
      for i := 0 to |entries|
        invariant Valid() && phase == Filling && old(trace) <= trace
        invariant disk == old(disk).(installing := disk.installing) && disk.installing.Present?
        invariant disk.installing.files == Overlay(old(disk).installing.files, entries[..i])
        invariant old(clock) <= clock
        invariant old(asked) <= asked && Agreed(old(asked), asked)
      {
        error := Fails();
        if error {
          return SourceUnreadable;
        }
        status := Write(entries[i]);
        if status != Installed {
          return;
        }
        assert entries[..i + 1][..i] == entries[..i];
      }
      assert entries[..|entries|] == entries;
      return Installed;
    }

    predicate Distinct(names: seq<Name>) {
      forall i, j :: 0 <= i < j < |names| ==> names[i] != names[j]
    }

    method List(files: Files) returns (error: bool, names: seq<Name>)
      modifies this`clock
      ensures !error ==> forall n :: n in names <==> n in files
      ensures Distinct(names)
      ensures old(clock) <= clock && (NoFaults(old(clock), clock) ==> !error)
    {
      var left := files.Keys;
      names := [];
      error := Fails();
      while !error && left != {}
        invariant forall n :: n in files <==> n in names || n in left
        invariant Distinct(names) && forall n :: n in names ==> n !in left
        invariant old(clock) <= clock && (NoFaults(old(clock), clock) ==> !error)
        decreases |left|
      {
        var n :| n in left;
        left := left - {n};
        names := names + [n];
        error := Fails();
      }
    }

    /** Passes exactly a directory in which the files that could be opened hold a system update
        description and a version; `openedAt` is when each of them was opened. */
    method Inspect() returns (status: Status, ghost openedAt: map<Name, nat>)
      requires Valid() && phase == Filling && disk.installing.Present?
      modifies this`clock, this`asked
      ensures Valid()
      ensures status in {Installed, NotFirmware, CopyFailed, Cancelled}
      ensures status in {Installed, NotFirmware} ==>
                && openedAt.Keys == disk.installing.files.Keys
                && (forall n :: n in openedAt ==> old(clock) <= openedAt[n] < clock)
                && (status == Installed <==>
                     && Finds(disk.installing.files, openedAt, cfg.isSystemUpdate)
                     && Finds(disk.installing.files, openedAt, cfg.hasVersion))
      ensures status == Installed ==> IsFirmware(cfg, disk.installing.files)
      ensures old(clock) <= clock
      ensures NoFaults(old(clock), clock) ==> status != CopyFailed
      ensures NoFaults(old(clock), clock) && status != Cancelled ==>
                (status == Installed <==> IsFirmware(cfg, disk.installing.files))
      ensures old(asked) <= asked && (status == Cancelled <==> !Agreed(old(asked), asked))
    {
      hide IsRun, Next, IsFirmware, Finds;
      var error, names := List(disk.installing.files);
      if error {
        return CopyFailed, map[];
      }
      status, openedAt := InspectFiles(names);
      if status != Cancelled {
        assert openedAt.Keys == disk.installing.files.Keys;
        FoundIsFirmware(disk.installing.files, openedAt, old(clock), clock);
      }
    }

    /** The loop over the listed files. */
    method InspectFiles(names: seq<Name>) returns (status: Status, ghost openedAt: map<Name, nat>)
      requires disk.installing.Present? && Distinct(names)
      requires forall n :: n in names ==> n in disk.installing.files
      modifies this`clock, this`asked
      ensures status in {Installed, NotFirmware, Cancelled} && old(clock) <= clock
      ensures status != Cancelled ==>
                && (forall n :: n in openedAt <==> n in names)
                && (forall n :: n in openedAt ==> old(clock) <= openedAt[n] < clock)
                && (status == Installed <==>
                     && Finds(disk.installing.files, openedAt, cfg.isSystemUpdate)
                     && Finds(disk.installing.files, openedAt, cfg.hasVersion))
      ensures old(asked) <= asked && (status == Cancelled <==> !Agreed(old(asked), asked))
    {
      hide Finds;
      var describesSystemUpdate, hasVersion := false, false;
      openedAt := map[];
      ghost var files := disk.installing.files;
      FindsNothing(files, cfg.isSystemUpdate);
      FindsNothing(files, cfg.hasVersion);
      for i := 0 to |names|
        invariant old(clock) <= clock && old(asked) <= asked && Agreed(old(asked), asked)
        invariant forall n :: n in openedAt <==> n in names[..i]
        invariant forall n :: n in openedAt ==> old(clock) <= openedAt[n] < clock
        invariant describesSystemUpdate <==> Finds(files, openedAt, cfg.isSystemUpdate)
        invariant hasVersion <==> Finds(files, openedAt, cfg.hasVersion)
      {
        var more := Report();
        if !more {
          return Cancelled, openedAt;
        }
        ghost var before, now := openedAt, clock;
        openedAt := openedAt[names[i] := now];
        var error := Fails();
        assert names[..i + 1] == names[..i] + [names[i]];
        FindsMore(files, before, names[i], now, cfg.isSystemUpdate);
        FindsMore(files, before, names[i], now, cfg.hasVersion);
        if !error {
          var data := disk.installing.files[names[i]];
          if cfg.isSystemUpdate(data) {
            describesSystemUpdate := true;
          }
          if !hasVersion && cfg.hasVersion(data) {
            hasVersion := true;
          }
        }
      }
      assert names[..|names|] == names;
      return if describesSystemUpdate && hasVersion then Installed else NotFirmware, openedAt;
    }

    /** One of the files passes the test, and the call that opened it did not fail. */
    ghost predicate Finds(files: Files, openedAt: map<Name, nat>, test: Data -> bool) {
      exists n :: n in files && n in openedAt && !faults(openedAt[n]) && test(files[n])
    }

    lemma FindsNothing(files: Files, test: Data -> bool)
      ensures !Finds(files, map[], test)
    {
    }

    lemma FindsMore(files: Files, openedAt: map<Name, nat>, n: Name, now: nat, test: Data -> bool)
      requires n in files && n !in openedAt
      ensures Finds(files, openedAt[n := now], test) <==>
              Finds(files, openedAt, test) || (!faults(now) && test(files[n]))
    {
      var more := openedAt[n := now];
      if Finds(files, openedAt, test) {
        var k :| k in files && k in openedAt && !faults(openedAt[k]) && test(files[k]);
        assert k in more && more[k] == openedAt[k];
      }
      if !faults(now) && test(files[n]) {
        assert n in more && more[n] == now;
      }
    }

    lemma FoundIsFirmware(files: Files, openedAt: map<Name, nat>, from: nat, to: nat)
      requires openedAt.Keys == files.Keys && forall n :: n in openedAt ==> from <= openedAt[n] < to
      ensures Finds(files, openedAt, cfg.isSystemUpdate) && Finds(files, openedAt, cfg.hasVersion) ==>
              IsFirmware(cfg, files)
      ensures NoFaults(from, to) && IsFirmware(cfg, files) ==>
              Finds(files, openedAt, cfg.isSystemUpdate) && Finds(files, openedAt, cfg.hasVersion)
    {
      if NoFaults(from, to) && IsFirmware(cfg, files) {
        var n :| n in files && cfg.isSystemUpdate(files[n]);
        var m :| m in files && cfg.hasVersion(files[m]);
        assert n in openedAt && m in openedAt;
      }
    }

    /** The swap. The firmware is replaced by exactly what was staged, or, when putting back
        works, is still there. */
    method Commit(ghost files: Files) returns (status: Status)
      requires Valid() && phase == Inspected(files) && Staged(cfg, disk, files)
      requires Reliable(cfg) ==> Rest(disk)
      modifies this
      ensures Valid() && phase == Cleanup && old(trace) <= trace
      ensures status in {Installed, ReplaceFailed}
      ensures status == Installed ==> disk.registered == Present(files) && disk.installing == Absent
      ensures status == ReplaceFailed && Reliable(cfg) ==>
                FilesOf(disk.registered) == FilesOf(old(disk).registered)
      ensures old(clock) <= clock
      ensures NoFaults(old(clock), clock) ==> status == Installed && disk == Disk(Present(files), Absent, Absent)
      ensures asked == old(asked) + 1
    {
      hide IsFirmware, IsRun, Recorded, Next, SubFiles;
      var _ := Report();
      BeginCommit(files);
      RemovePrevious();
      var error, hadInstalled := SetInstalledAside(files);
      if error {
        return ReplaceFailed;
      }
      status := Replace(files, hadInstalled);
    }

    /** The new firmware takes the place; otherwise the one set aside is put back. */
    method Replace(ghost files: Files, hadInstalled: bool) returns (status: Status)
      requires Valid() && phase == CommitReplace(files, hadInstalled) && disk.installing == Present(files)
      modifies this`disk, this`clock, this`trace, this`phase
      ensures Valid() && phase == Cleanup && old(trace) <= trace
      ensures status in {Installed, ReplaceFailed}
      ensures status == Installed ==> disk.registered == Present(files) && disk.installing == Absent
      ensures status == ReplaceFailed && !hadInstalled ==> disk == old(disk)
      ensures status == ReplaceFailed && !cfg.putBackMayFail && hadInstalled ==>
                disk == old(disk).(registered := old(disk).previous, previous := Absent)
      ensures old(clock) <= clock
      ensures NoFaults(old(clock), clock) && old(disk).registered == Absent ==>
                status == Installed && disk == Disk(Present(files), Absent, Absent)
    {
      hide IsFirmware, IsRun, Recorded, Next, SubFiles;
      var error := PutInPlace(files, hadInstalled);
      if error {
        PutBack(files, hadInstalled);
        return ReplaceFailed;
      }
      RemovePrevious();
      Leave();
      return Installed;
    }

    /** The installed firmware is set aside unless there is none, or none to be seen. */
    method SetInstalledAside(ghost files: Files) returns (error: bool, hadInstalled: bool)
      requires Valid() && phase == CommitClear(files)
      modifies this`disk, this`clock, this`trace, this`phase
      ensures Valid() && old(trace) <= trace
      ensures error ==> phase == Cleanup && disk == old(disk)
      ensures !error ==> phase == CommitReplace(files, hadInstalled)
      ensures !error && !hadInstalled ==> disk == old(disk)
      ensures !error && hadInstalled ==> disk == old(disk).(registered := Absent, previous := old(disk).registered)
      ensures hadInstalled ==> old(disk).registered.Present?
      ensures old(clock) <= clock
      ensures NoFaults(old(clock), clock) && old(disk).previous == Absent ==>
                !error && (hadInstalled <==> old(disk).registered.Present?)
    {
      hide IsFirmware, IsRun, Recorded;
      error := Fails();
      hadInstalled := disk.registered.Present? && !error;
      error := false;
      if hadInstalled {
        Enter(CommitSetAside(files));
        error := SetAside(files);
        if error {
          Leave();
        }
      } else {
        Enter(CommitReplace(files, false));
      }
    }

    /** `rename(installed, previous)`. */
    method SetAside(ghost files: Files) returns (error: bool)
      requires Valid() && phase == CommitSetAside(files)
      modifies this`disk, this`clock, this`trace, this`phase
      ensures Valid() && old(trace) <= trace
      ensures error ==> phase == old(phase) && disk == old(disk)
      ensures !error ==> phase == CommitReplace(files, true)
      ensures !error ==> disk == old(disk).(registered := Absent, previous := old(disk).registered)
      ensures old(clock) <= clock
      ensures NoFaults(old(clock), clock) && old(disk).previous == Absent ==> !error
    {
      hide IsFirmware, IsRun;
      error := Fails();
      error := error || !Replaceable(disk.previous);
      if !error {
        Record(State(CommitReplace(files, true), disk.(registered := Absent, previous := disk.registered)));
        disk := disk.(registered := Absent, previous := disk.registered);
      }
    }

    /** `rename(m_directory, installed)`. */
    method PutInPlace(ghost files: Files, ghost hadInstalled: bool) returns (error: bool)
      requires Valid() && phase == CommitReplace(files, hadInstalled)
      modifies this`disk, this`clock, this`trace, this`phase
      ensures Valid() && old(trace) <= trace
      ensures error ==> phase == old(phase) && disk == old(disk)
      ensures !error ==> phase == CommitDropPrevious
      ensures !error ==> disk == old(disk).(registered := old(disk).installing, installing := Absent)
      ensures old(clock) <= clock
      ensures NoFaults(old(clock), clock) && old(disk).registered == Absent ==> !error
    {
      hide IsFirmware, IsRun;
      error := Fails();
      error := error || !Replaceable(disk.registered);
      if !error {
        Record(State(CommitDropPrevious, disk.(registered := disk.installing, installing := Absent)));
        disk := disk.(registered := disk.installing, installing := Absent);
      }
    }

    /** `rename(previous, installed)` after a failed replacement, if something was set aside. */
    method PutBack(ghost files: Files, hadInstalled: bool)
      requires Valid() && phase == CommitReplace(files, hadInstalled)
      modifies this`disk, this`clock, this`trace, this`phase
      ensures Valid() && old(trace) <= trace && phase == Cleanup
      ensures disk in {old(disk), old(disk).(registered := old(disk).previous, previous := Absent)}
      ensures !hadInstalled ==> disk == old(disk)
      ensures hadInstalled && !cfg.putBackMayFail ==>
                disk == old(disk).(registered := old(disk).previous, previous := Absent)
      ensures old(clock) <= clock
    {
      hide IsFirmware, IsRun;
      if !hadInstalled {
        Leave();
        return;
      }
      Enter(CommitPutBack);
      var error := Fails();
      if !(error && cfg.putBackMayFail) {
        Record(State(Cleanup, disk.(registered := disk.previous, previous := Absent)));
        disk := disk.(registered := disk.previous, previous := Absent);
      } else {
        Enter(Cleanup);
      }
    }

    /** The destructor of `Staging`. */
    method Destroy()
      requires Valid() && phase == Cleanup
      modifies this`disk, this`clock, this`trace, this`phase
      ensures Valid() && phase == Idle && old(trace) <= trace
      ensures disk == old(disk).(installing := disk.installing)
      ensures old(clock) <= clock && (NoFaults(old(clock), clock) ==> disk.installing == Absent)
    {
      hide IsFirmware, IsRun;
      RemoveStaging();
      Enter(Idle);
    }

    // ----- the two entry points

    /** Whatever fails, the installed firmware is the old one or all that was staged: what
        clearing the staging directory left over, and every file of the package. If nothing
        fails, a package that is a firmware is installed, exactly and with nothing else left on
        the disk, unless the user declines before the commit; nothing else is. */
    method InstallStaged(entries: seq<Entry>) returns (status: Status, ghost leftover: Files)
      requires Valid() && phase == Idle
      modifies this
      ensures Valid() && phase == Idle && old(trace) <= trace
      ensures SubFiles(leftover, FilesOf(old(disk).installing))
      ensures status == Installed ==>
                && disk.registered == Present(Overlay(leftover, entries))
                && IsFirmware(cfg, Overlay(leftover, entries))
      ensures status == Installed ==>
                (disk.registered == Present(Overlay(map[], entries)) <==>
                  forall n :: n in leftover ==> Named(entries, n))
      ensures status == Installed && FilesOf(old(disk).installing) == map[] ==>
                disk.registered == Present(Overlay(map[], entries))
      ensures status != Installed && Reliable(cfg) ==> FilesOf(disk.registered) == FilesOf(old(disk).registered)
      ensures old(clock) <= clock
      ensures NoFaults(old(clock), clock) ==>
                && status in {Installed, NotFirmware, Cancelled}
                && (status != Cancelled ==>
                     (status == Installed <==> entries != [] && IsFirmware(cfg, Overlay(map[], entries))))
                && disk == if status == Installed then Disk(Present(Overlay(map[], entries)), Absent, Absent)
                           else old(disk).(installing := Absent)
      ensures old(asked) <= asked
      ensures status in {Installed, ReplaceFailed} ==> old(asked) < asked && Agreed(old(asked), asked - 1)
      ensures status !in {Installed, ReplaceFailed} ==> (status == Cancelled <==> !Agreed(old(asked), asked))
    {
      hide IsFirmware, IsRun, Next, Recorded;
      AtRest();
      var ok := Prepare();
      leftover := FilesOf(disk.installing);
      if !ok {
        Destroy();
        return StorageUnavailable, leftover;
      }
      status := Stage(entries);
      if status != Installed {
        Destroy();
        return;
      }
      status := Commit(Overlay(leftover, entries));
      OverlayIsPackage(leftover, entries);
      Destroy();
    }

    /** Filling, inspecting and asking. */
    method Stage(entries: seq<Entry>) returns (status: Status)
      requires Valid() && phase == Filling && disk.installing.Present?
      modifies this
      ensures Valid() && old(trace) <= trace
      ensures disk == old(disk).(installing := disk.installing)
      ensures status == Installed ==> phase == Inspected(Overlay(old(disk).installing.files, entries))
      ensures status == Installed ==> Staged(cfg, disk, Overlay(old(disk).installing.files, entries))
      ensures status != Installed ==> phase == Cleanup
      ensures old(clock) <= clock
      ensures NoFaults(old(clock), clock) ==>
                && status in {Installed, NotFirmware, Cancelled}
                && (status != Cancelled ==>
                     (status == Installed <==>
                       entries != [] && IsFirmware(cfg, Overlay(old(disk).installing.files, entries))))
      ensures status in {Installed, SourceUnreadable, CopyFailed, NotFirmware, Cancelled}
      ensures old(asked) <= asked && (status == Cancelled <==> !Agreed(old(asked), asked))
    {
      hide IsFirmware, IsRun, Recorded, Overlay, Next, Finds;
      status := Fill(entries);
      if status != Installed {
        Leave();
        return;
      }
      ghost var openedAt;
      status, openedAt := Inspect();
      if status != Installed {
        Leave();
        return;
      }
      status := Ask();
    }

    /** A firmware that is not newer needs the user's consent. */
    method Ask() returns (status: Status)
      requires Valid() && phase == Filling && disk.installing.Present? && IsFirmware(cfg, disk.installing.files)
      modifies this
      ensures Valid() && old(trace) <= trace && disk == old(disk)
      ensures status == Installed ==> phase == Inspected(disk.installing.files)
      ensures status == Installed ==> Staged(cfg, disk, disk.installing.files)
      ensures status != Installed ==> status == Cancelled && phase == Cleanup
      ensures clock == old(clock) && asked == old(asked) + 1 && (status == Installed <==> agrees(old(asked)))
    {
      hide IsFirmware, IsRun, Recorded;
      Enter(Inspected(disk.installing.files));
      var agreed := Report();
      if !agreed {
        Leave();
        return Cancelled;
      }
      return Installed;
    }

    /** Between installs nothing but the registered directory is needed. */
    lemma AtRest()
      requires Valid() && phase == Idle
      ensures Reliable(cfg) ==> Rest(disk)
    {
      if Reliable(cfg) {
        RunKeeps(cfg, trace, |trace| - 1);
      }
    }

    /** Runs before anything reads the directories. Afterwards the firmware that was
        effectively installed is the registered one, and no copy set aside is needed. */
    method RecoverInterrupted()
      requires Valid() && phase == Off
      modifies this`disk, this`clock, this`trace, this`phase
      ensures Valid() && phase == Idle && old(trace) <= trace
      ensures Reliable(cfg) ==> FilesOf(disk.registered) == Effective(old(disk)) && Rest(disk)
      ensures old(clock) <= clock
      ensures NoFaults(old(clock), clock) ==>
                FilesOf(disk.registered) == Effective(old(disk)) && disk.installing == disk.previous == Absent
    {
      hide IsFirmware, IsRun, Recorded;
      Enter(RecoverClearStaging);
      RemoveStaging();
      Enter(RecoverDecide);
      Decide();
    }

    /** What to do with a firmware that was set aside, if there seems to be one. */
    method Decide()
      requires Valid() && phase == RecoverDecide
      modifies this`disk, this`clock, this`trace, this`phase
      ensures Valid() && phase == Idle && old(trace) <= trace
      ensures Reliable(cfg) ==> FilesOf(disk.registered) == Effective(old(disk)) && Rest(disk)
      ensures disk.installing == old(disk).installing && old(clock) <= clock
      ensures NoFaults(old(clock), clock) ==>
        FilesOf(disk.registered) == Effective(old(disk)) && disk.previous == Absent
    {
      hide IsFirmware, IsRun, Recorded;
      var missed := Fails();
      if disk.previous.Absent? || (missed && cfg.queriesMayFail) {
        Enter(Idle);
        return;
      }
      var error := Fails();
      missed := Fails();
      if disk.registered.Absent? || error || (disk.registered.files == map[] && !(missed && cfg.queriesMayFail)) {
        Enter(RecoverRemoveEmpty);
        RemoveEmpty();
        RecoverPrevious();
      } else {
        DropPrevious();
      }
    }

    /** `remove_all(previous)`, behind a firmware that is taken to be there. */
    method DropPrevious()
      requires Valid() && phase == RecoverDecide && disk.previous.Present? && disk.registered.Present?
      requires disk.registered.files != map[] || cfg.queriesMayFail
      modifies this`disk, this`clock, this`trace, this`phase
      ensures Valid() && phase == Idle && old(trace) <= trace
      ensures disk == old(disk).(previous := disk.previous)
      ensures old(clock) <= clock && (NoFaults(old(clock), clock) ==> disk.previous == Absent)
    {
      hide IsFirmware, IsRun, Recorded;
      Enter(RecoverDropPrevious);
      RemovePrevious();
      Enter(Idle);
    }

    /** `remove(installed)`, which takes nothing but an empty directory. */
    method RemoveEmpty()
      requires Valid() && phase == RecoverRemoveEmpty
      modifies this`disk, this`clock, this`trace, this`phase
      ensures Valid() && phase == RecoverPutBack && old(trace) <= trace
      ensures disk == old(disk).(registered := disk.registered)
        && FilesOf(disk.registered) == FilesOf(old(disk).registered)
      ensures old(clock) <= clock
    {
      hide IsFirmware, IsRun;
      var error := Fails();
      if !error && Replaceable(disk.registered) {
        Record(State(RecoverPutBack, disk.(registered := Absent)));
        disk := disk.(registered := Absent);
      } else {
        Enter(RecoverPutBack);
      }
    }

    /** `rename(previous, installed)` at the start. */
    method RecoverPrevious()
      requires Valid() && phase == RecoverPutBack
      modifies this`disk, this`clock, this`trace, this`phase
      ensures Valid() && phase == Idle && old(trace) <= trace
      ensures disk == old(disk) || (Replaceable(old(disk).registered)
                && disk == old(disk).(registered := old(disk).previous, previous := Absent))
      ensures !cfg.putBackMayFail && disk == old(disk) ==>
        !Replaceable(disk.registered) || disk.previous == disk.registered == Absent
      ensures old(clock) <= clock
      ensures NoFaults(old(clock), clock) && Replaceable(old(disk).registered) ==>
                disk == old(disk).(registered := old(disk).previous, previous := Absent)
    {
      hide IsFirmware, IsRun;
      var error := Fails();
      if Replaceable(disk.registered) && !(error && cfg.putBackMayFail) {
        Record(State(Idle, disk.(registered := disk.previous, previous := Absent)));
        disk := disk.(registered := disk.previous, previous := Absent);
      } else {
        Enter(Idle);
      }
    }
  }

  /** A crash may come at any point of what an installer has done, and the next start goes on
      from the disk it left. */
  lemma CrashAnywhere(cfg: Config, trace: seq<State>, k: nat)
    requires IsRun(cfg, trace) && 0 < k <= |trace|
    ensures IsRun(cfg, trace[..k] + [State(Off, trace[k - 1].disk)])
  {
    hide RecoveryStep, StagingStep, CommitStep;
  }
}
