/** Which update a game is listed with (src/nxemu-loader/game_list_cache.cpp:51-94, 703-767,
    1101-1153, 1207-1230). */
module GameListUpdates {
  import opened Bytes
  import opened Options
  import opened ByteOrder
  import opened NameOrder
  import opened PathOrder
  import opened CacheFormat
  import opened GameListRecords
  import JsonNumbers

  const SUCCESS := 0
  const TITLE_UPDATE := 0x81
  const CONTENT_CONTROL := 3

  datatype UpdateCandidate = UpdateCandidate(path: Path, stamp: FileStamp, version: nat)

  /** An entry of the multimap `UpdateIndex`, in the order of insertion. */
  datatype Indexed = Indexed(titleId: nat, candidate: UpdateCandidate)

  /** What reading the Control content of an update gives: a function of the file and its
      stamp. */
  type UpdateReader = (Path, FileStamp, nat) -> Update

  // ----- the fingerprint

  const FNV_OFFSET := 0xCBF29CE484222325
  const FNV_PRIME := 0x100000001B3

  function Xor(a: nat, b: nat): nat {
    if a == 0 && b == 0 then 0 else (a + b) % 2 + 2 * Xor(a / 2, b / 2)
  }

  /** FNV-1a, 64 bits. */
  function Hash(h: nat, bytes: Bytes): nat {
    if bytes == [] then h
    else (Xor(Hash(h, bytes[..|bytes| - 1]), bytes[|bytes| - 1]) * FNV_PRIME) % TWO_64
  }

  lemma {:induction false} HashConcat(h: nat, a: Bytes, b: Bytes)
    ensures Hash(h, a + b) == Hash(Hash(h, a), b)
  {
    hide Xor;
    if b == [] {
      assert a + b == a;
    } else {
      assert (a + b)[..|a + b| - 1] == a + b[..|b| - 1];
      HashConcat(h, a, b[..|b| - 1]);
    }
  }

  /** The bytes the chosen update puts into the fingerprint; none at all without an update. */
  function Stream(c: Option<UpdateCandidate>): Bytes {
    if c.None? then []
    else
      var u := c.value;
      LittleEndian(|u.path|, 8) + u.path + LittleEndian(u.stamp.size, 8)
        + LittleEndian(TimeBits(u.stamp.modifiedTime), 8) + LittleEndian(u.version, 8)
  }

  function FingerprintOf(c: Option<UpdateCandidate>): nat {
    Hash(FNV_OFFSET, Stream(c))
  }

  predicate CandidateFits(c: Option<UpdateCandidate>) {
    c.Some? ==> |c.value.path| < TWO_64 && StampFits(c.value.stamp) && c.value.version < TWO_64
  }

  lemma LittleInjective(a: nat, b: nat, w: nat)
    requires a < Power(w) && b < Power(w) && LittleEndian(a, w) == LittleEndian(b, w)
    ensures a == b
  {
    LittleRoundTrip(a, w);
    LittleRoundTrip(b, w);
  }

  lemma Cut(a: Bytes, b: Bytes, c: Bytes, d: Bytes)
    requires a + b == c + d && |a| == |c|
    ensures a == c && b == d
  {
    assert (a + b)[..|a|] == a && (c + d)[..|c|] == c;
    assert (a + b)[|a|..] == b && (c + d)[|c|..] == d;
  }

  lemma TimeInjective(s: FileStamp, t: FileStamp)
    requires StampFits(s) && StampFits(t) && TimeBits(s.modifiedTime) == TimeBits(t.modifiedTime)
    ensures s.modifiedTime == t.modifiedTime
  {
    assert TimeFrom(TimeBits(s.modifiedTime)) == s.modifiedTime;
    assert TimeFrom(TimeBits(t.modifiedTime)) == t.modifiedTime;
  }

  /** The stream can be decoded in one way only. */
  lemma StreamIsUnique(a: Option<UpdateCandidate>, b: Option<UpdateCandidate>)
    requires CandidateFits(a) && CandidateFits(b) && Stream(a) == Stream(b)
    ensures a == b
  {
    if a.Some? && b.Some? {
      var u, v := a.value, b.value;
      Powers();
      hide LittleEndian, TimeBits, Power;
      var times, otherTimes :=
        LittleEndian(TimeBits(u.stamp.modifiedTime), 8), LittleEndian(TimeBits(v.stamp.modifiedTime), 8);
      StreamParts(u);
      StreamParts(v);
      Cut(LittleEndian(|u.path|, 8), Tail1(u), LittleEndian(|v.path|, 8), Tail1(v));
      LittleInjective(|u.path|, |v.path|, 8);
      Cut(u.path, Tail2(u), v.path, Tail2(v));
      Cut(LittleEndian(u.stamp.size, 8), Tail3(u), LittleEndian(v.stamp.size, 8), Tail3(v));
      LittleInjective(u.stamp.size, v.stamp.size, 8);
      Cut(times, LittleEndian(u.version, 8), otherTimes, LittleEndian(v.version, 8));
      LittleInjective(u.version, v.version, 8);
      LittleInjective(TimeBits(u.stamp.modifiedTime), TimeBits(v.stamp.modifiedTime), 8);
      TimeInjective(u.stamp, v.stamp);
    }
  }

  function Tail1(u: UpdateCandidate): Bytes {
    u.path + Tail2(u)
  }

  function Tail2(u: UpdateCandidate): Bytes {
    LittleEndian(u.stamp.size, 8) + Tail3(u)
  }

  function Tail3(u: UpdateCandidate): Bytes {
    LittleEndian(TimeBits(u.stamp.modifiedTime), 8) + LittleEndian(u.version, 8)
  }

  lemma StreamParts(u: UpdateCandidate)
    ensures Stream(Some(u)) == LittleEndian(|u.path|, 8) + Tail1(u)
  {
    hide LittleEndian, TimeBits;
  }

  class Fingerprint {
    var m_hash: nat
    /** Everything added so far. */
    ghost var added: Bytes

    ghost predicate Valid()
      reads this
    {
      m_hash == Hash(FNV_OFFSET, added)
    }

    constructor ()
      ensures Valid() && added == []
    {
      m_hash, added := FNV_OFFSET, [];
    }

    method Add(bytes: Bytes)
      requires Valid()
      modifies this
      ensures Valid() && added == old(added) + bytes
    {
      hide Xor;
      assert added + bytes[..0] == added;
      for i := 0 to |bytes|
        invariant added == old(added) && m_hash == Hash(FNV_OFFSET, added + bytes[..i])
      {
        assert (added + bytes[..i + 1])[..|added| + i] == added + bytes[..i];
        m_hash := (Xor(m_hash, bytes[i]) * FNV_PRIME) % TWO_64;
      }
      assert bytes[..|bytes|] == bytes;
      added := added + bytes;
    }

    method AddNumber(value: nat)
      requires Valid()
      modifies this
      ensures Valid() && added == old(added) + LittleEndian(value, 8)
    {
      Add(LittleEndian(value, 8));
    }

    method AddString(value: Bytes)
      requires Valid()
      modifies this
      ensures Valid() && added == old(added) + LittleEndian(|value|, 8) + value
    {
      AddNumber(|value|);
      Add(value);
    }
  }

  // ----- the candidates

  predicate IsControlUpdate(e: AddOnEntry) {
    e.titleType == TITLE_UPDATE && e.contentType == CONTENT_CONTROL
  }

  /** What one file contributes, entry by entry. */
  function FromEntries(path: Path, stamp: FileStamp, entries: seq<AddOnEntry>): seq<Indexed> {
    if entries == [] then []
    else
      var last := entries[|entries| - 1];
      FromEntries(path, stamp, entries[..|entries| - 1])
        + (if IsControlUpdate(last) then [Indexed(last.titleId, UpdateCandidate(path, stamp, last.version))] else [])
  }

  function AddOnIndex(files: seq<Filed<AddOnFileRecord>>): seq<Indexed> {
    if files == [] then []
    else
      var last := files[|files| - 1];
      AddOnIndex(files[..|files| - 1])
        + (if last.record.seen then FromEntries(last.path, last.record.stamp, last.record.entries) else [])
  }

  function GameIndex(files: seq<Filed<GameFileRecord>>): seq<Indexed> {
    if files == [] then []
    else
      var last := files[|files| - 1];
      GameIndex(files[..|files| - 1])
        + (if last.record.seen then FromEntries(last.path, last.record.stamp, last.record.addOns) else [])
  }

  /** `equal_range`: equal keys of a multimap stay in the order of their insertion. */
  function EqualRange(index: seq<Indexed>, titleId: nat): seq<UpdateCandidate> {
    if index == [] then []
    else
      var last := index[|index| - 1];
      EqualRange(index[..|index| - 1], titleId) + (if last.titleId == titleId then [last.candidate] else [])
  }

  // ----- what the index holds, and in which order

  lemma {:induction false} EntriesHold(path: Path, stamp: FileStamp, entries: seq<AddOnEntry>, x: Indexed)
    ensures x in FromEntries(path, stamp, entries) <==>
            exists i :: 0 <= i < |entries| && IsControlUpdate(entries[i])
              && x == Indexed(entries[i].titleId, UpdateCandidate(path, stamp, entries[i].version))
  {
    if entries != [] {
      EntriesHold(path, stamp, entries[..|entries| - 1], x);
    }
  }

  lemma {:induction false} RangeHolds(index: seq<Indexed>, titleId: nat, c: UpdateCandidate)
    ensures c in EqualRange(index, titleId) <==> Indexed(titleId, c) in index
  {
    if index != [] {
      RangeHolds(index[..|index| - 1], titleId, c);
    }
  }

  /** Every Control update of every add-on file of this scan is a candidate, and nothing else. */
  lemma {:induction false} AddOnIndexHolds(files: seq<Filed<AddOnFileRecord>>, x: Indexed)
    ensures x in AddOnIndex(files) <==>
            exists i :: 0 <= i < |files| && files[i].record.seen
              && x in FromEntries(files[i].path, files[i].record.stamp, files[i].record.entries)
  {
    hide FromEntries;
    if files != [] {
      AddOnIndexHolds(files[..|files| - 1], x);
    }
  }

  lemma {:induction false} GameIndexHolds(files: seq<Filed<GameFileRecord>>, x: Indexed)
    ensures x in GameIndex(files) <==>
            exists i :: 0 <= i < |files| && files[i].record.seen
              && x in FromEntries(files[i].path, files[i].record.stamp, files[i].record.addOns)
  {
    hide FromEntries;
    if files != [] {
      GameIndexHolds(files[..|files| - 1], x);
    }
  }

  predicate NotAfter(a: Path, b: Path) {
    a == b || NameLess(a, b)
  }

  predicate InPathOrder(index: seq<Indexed>) {
    forall i, j :: 0 <= i < j < |index| ==> NotAfter(index[i].candidate.path, index[j].candidate.path)
  }

  predicate CandidatesInPathOrder(cs: seq<UpdateCandidate>) {
    forall i, j :: 0 <= i < j < |cs| ==> NotAfter(cs[i].path, cs[j].path)
  }

  lemma {:induction false} EntriesOfOnePath(path: Path, stamp: FileStamp, entries: seq<AddOnEntry>)
    ensures forall i :: 0 <= i < |FromEntries(path, stamp, entries)| ==>
      FromEntries(path, stamp, entries)[i].candidate.path == path
  {
    if entries != [] {
      EntriesOfOnePath(path, stamp, entries[..|entries| - 1]);
    }
  }

  /** The candidates of a title keep the order of the index. */
  lemma {:induction false} RangeInPathOrder(index: seq<Indexed>, titleId: nat)
    requires InPathOrder(index)
    ensures CandidatesInPathOrder(EqualRange(index, titleId))
  {
    hide NotAfter;
    if index != [] {
      var front := index[..|index| - 1];
      RangeInPathOrder(front, titleId);
      var cs := EqualRange(front, titleId);
      forall i | 0 <= i < |cs|
        ensures NotAfter(cs[i].path, index[|index| - 1].candidate.path)
      {
        RangeHolds(front, titleId, cs[i]);
        var j :| 0 <= j < |front| && front[j] == Indexed(titleId, cs[i]);
        assert index[j] == front[j];
      }
    }
  }

  /** Walking a map by its keys fills the index in path order. */
  lemma {:induction false} AddOnIndexInPathOrder(files: seq<Filed<AddOnFileRecord>>)
    requires forall i, j :: 0 <= i < j < |files| ==> NameLess(files[i].path, files[j].path)
    ensures InPathOrder(AddOnIndex(files))
  {
    hide FromEntries, NameLess;
    if files != [] {
      var front, last := files[..|files| - 1], files[|files| - 1];
      AddOnIndexInPathOrder(front);
      EntriesOfOnePath(last.path, last.record.stamp, last.record.entries);
      var index := AddOnIndex(front);
      forall i | 0 <= i < |index|
        ensures NotAfter(index[i].candidate.path, last.path)
      {
        AddOnIndexHolds(front, index[i]);
        var k :| 0 <= k < |front|
          && index[i] in FromEntries(front[k].path, front[k].record.stamp, front[k].record.entries);
        EntriesOfOnePath(front[k].path, front[k].record.stamp, front[k].record.entries);
        assert files[k] == front[k];
      }
    }
  }

  lemma {:induction false} GameIndexInPathOrder(files: seq<Filed<GameFileRecord>>)
    requires forall i, j :: 0 <= i < j < |files| ==> NameLess(files[i].path, files[j].path)
    ensures InPathOrder(GameIndex(files))
  {
    hide FromEntries, NameLess;
    if files != [] {
      var front, last := files[..|files| - 1], files[|files| - 1];
      GameIndexInPathOrder(front);
      EntriesOfOnePath(last.path, last.record.stamp, last.record.addOns);
      var index := GameIndex(front);
      forall i | 0 <= i < |index|
        ensures NotAfter(index[i].candidate.path, last.path)
      {
        GameIndexHolds(front, index[i]);
        var k :| 0 <= k < |front|
          && index[i] in FromEntries(front[k].path, front[k].record.stamp, front[k].record.addOns);
        EntriesOfOnePath(front[k].path, front[k].record.stamp, front[k].record.addOns);
        assert files[k] == front[k];
      }
    }
  }

  // ----- the choice

  const UPDATE_TEXT: Bytes := [0x55, 0x70, 0x64, 0x61, 0x74, 0x65]

  predicate IsUpdateDisabled(disabled: seq<Bytes>, version: nat) {
    UPDATE_TEXT in disabled || UPDATE_TEXT + [0x40] + JsonNumbers.IntText(version) in disabled
  }

  /** The loop of `RefreshUpdate`: a later candidate must be strictly newer. */
  function Best(candidates: seq<UpdateCandidate>, disabled: seq<Bytes>): (best: Option<UpdateCandidate>)
  {
    if candidates == [] then None
    else
      var front := Best(candidates[..|candidates| - 1], disabled);
      var last := candidates[|candidates| - 1];
      if IsUpdateDisabled(disabled, last.version) then front
      else if front.None? || last.version > front.value.version then Some(last)
      else front
  }

  /** The candidate at `i` is enabled, none enabled is newer, and none before it is as new. */
  predicate IsChoice(candidates: seq<UpdateCandidate>, disabled: seq<Bytes>, i: int) {
    && 0 <= i < |candidates| && !IsUpdateDisabled(disabled, candidates[i].version)
    && forall j :: 0 <= j < |candidates| && !IsUpdateDisabled(disabled, candidates[j].version) ==>
         candidates[j].version < candidates[i].version || (candidates[j].version == candidates[i].version && i <= j)
  }

  /** The highest enabled version wins, among equals the first; there is a winner exactly if
      something is enabled. */
  lemma {:induction false} BestIsHighestThenFirst(candidates: seq<UpdateCandidate>, disabled: seq<Bytes>)
    ensures Best(candidates, disabled).Some? <==>
            exists i :: 0 <= i < |candidates| && !IsUpdateDisabled(disabled, candidates[i].version)
    ensures Best(candidates, disabled).Some? ==>
            exists i :: IsChoice(candidates, disabled, i) && candidates[i] == Best(candidates, disabled).value
  {
    hide IsUpdateDisabled;
    if candidates != [] {
      var front, last := candidates[..|candidates| - 1], candidates[|candidates| - 1];
      BestIsHighestThenFirst(front, disabled);
      var before := Best(front, disabled);
      if before.Some? {
        var i :| IsChoice(front, disabled, i) && front[i] == before.value;
        if !IsUpdateDisabled(disabled, last.version) && last.version > before.value.version {
          ChoiceMoves(candidates, disabled, i);
        } else {
          ChoiceStays(candidates, disabled, i);
        }
      } else {
        assert forall i :: 0 <= i < |front| ==> candidates[i] == front[i];
        if !IsUpdateDisabled(disabled, last.version) {
          FirstChoice(candidates, disabled);
        }
      }
    }
  }

  lemma ChoiceStays(candidates: seq<UpdateCandidate>, disabled: seq<Bytes>, i: int)
    requires candidates != [] && IsChoice(candidates[..|candidates| - 1], disabled, i)
    requires var last := candidates[|candidates| - 1];
             IsUpdateDisabled(disabled, last.version) || last.version <= candidates[i].version
    ensures IsChoice(candidates, disabled, i)
  {
    hide IsUpdateDisabled;
    forall j | 0 <= j < |candidates| && !IsUpdateDisabled(disabled, candidates[j].version)
      ensures candidates[j].version < candidates[i].version
        || (candidates[j].version == candidates[i].version && i <= j)
    {
      if j < |candidates| - 1 {
        assert candidates[..|candidates| - 1][j] == candidates[j];
      }
    }
  }

  lemma ChoiceMoves(candidates: seq<UpdateCandidate>, disabled: seq<Bytes>, i: int)
    requires candidates != [] && IsChoice(candidates[..|candidates| - 1], disabled, i)
    requires var last := candidates[|candidates| - 1];
             !IsUpdateDisabled(disabled, last.version) && last.version > candidates[i].version
    ensures IsChoice(candidates, disabled, |candidates| - 1)
  {
    hide IsUpdateDisabled;
    forall j | 0 <= j < |candidates| - 1 && !IsUpdateDisabled(disabled, candidates[j].version)
      ensures candidates[j].version < candidates[|candidates| - 1].version
    {
      assert candidates[..|candidates| - 1][j] == candidates[j];
    }
  }

  lemma FirstChoice(candidates: seq<UpdateCandidate>, disabled: seq<Bytes>)
    requires candidates != [] && !IsUpdateDisabled(disabled, candidates[|candidates| - 1].version)
    requires forall i :: 0 <= i < |candidates| - 1 ==> IsUpdateDisabled(disabled, candidates[i].version)
    ensures IsChoice(candidates, disabled, |candidates| - 1)
  {
    hide IsUpdateDisabled;
  }

  // ----- refreshing one program

  /** `GetUpdateTitleID`: bit 11 is set. */
  function UpdateTitleOf(programId: nat): nat {
    if programId / 0x800 % 2 == 1 then programId else programId + 0x800
  }

  function ProgramIdOf(m: Metadata): nat {
    if m.programIdStatus == SUCCESS then m.programId else 0
  }

  /** Everything that could be listed for a program: add-on directories before game
      directories. */
  function CandidatesFor(m: Metadata, addOns: seq<Indexed>, games: seq<Indexed>): seq<UpdateCandidate> {
    var id := ProgramIdOf(m);
    if id == 0 then [] else EqualRange(addOns, UpdateTitleOf(id)) + EqualRange(games, UpdateTitleOf(id))
  }

  function DisabledFor(m: Metadata, disabled: map<nat, seq<Bytes>>): seq<Bytes> {
    if ProgramIdOf(m) in disabled then disabled[ProgramIdOf(m)] else []
  }

  function Chosen(m: Metadata, addOns: seq<Indexed>, games: seq<Indexed>,
                  disabled: map<nat, seq<Bytes>>): Option<UpdateCandidate>
  {
    Best(CandidatesFor(m, addOns, games), DisabledFor(m, disabled))
  }

  function UpdateFrom(read: UpdateReader, m: Metadata, c: Option<UpdateCandidate>): Update {
    if c.None? then NO_UPDATE else read(c.value.path, c.value.stamp, UpdateTitleOf(ProgramIdOf(m)))
  }

  datatype Refreshed = Refreshed(program: ProgramRecord, changed: bool)

  function RefreshUpdate(read: UpdateReader, p: ProgramRecord, addOns: seq<Indexed>, games: seq<Indexed>,
                         disabled: map<nat, seq<Bytes>>): Refreshed {
    var best := Chosen(p.base, addOns, games, disabled);
    if p.updateValid && p.updateFingerprint == FingerprintOf(best) then Refreshed(p, false)
    else Refreshed(ProgramRecord(p.base, true, FingerprintOf(best), UpdateFrom(read, p.base, best), None), true)
  }

  /** The base overlaid with what the update says. */
  function Overlay(base: Metadata, u: Update): Metadata {
    var titled := if u.title == [] then base else base.(title := u.title, titleStatus := SUCCESS);
    var drawn := if u.icon == [] then titled else titled.(icon := u.icon, iconStatus := SUCCESS);
    if u.version == [] then drawn else drawn.(displayVersion := u.version, versionStatus := SUCCESS)
  }

  /** `ReportProgram` makes the overlay once and keeps it. */
  function Reported(p: ProgramRecord): ProgramRecord {
    if p.effective.None? then p.(effective := Some(Overlay(p.base, p.update))) else p
  }

  // ----- nothing stale is kept

  /** What is remembered of an update came from some candidate known by its fingerprint, and
      what is kept for reports is the overlay. */
  ghost predicate Trusted(read: UpdateReader, known: set<Option<UpdateCandidate>>, p: ProgramRecord) {
    && (p.updateValid ==>
      exists c :: c in known && p.updateFingerprint == FingerprintOf(c) && p.update == UpdateFrom(read, p.base, c))
    && (p.effective.Some? ==> p.effective.value == Overlay(p.base, p.update))
  }

  /** No two candidates that ever played a role have the same hash. */
  ghost predicate NoCollisions(known: set<Option<UpdateCandidate>>) {
    && (forall c :: c in known ==> CandidateFits(c))
    && (forall a, b :: a in known && b in known && FingerprintOf(a) == FingerprintOf(b) ==> Stream(a) == Stream(b))
  }

  /** A refreshed program carries the update of the chosen candidate, whether it was read again
      or kept, and its next report is the base overlaid with it. */
  lemma RefreshIsCurrent(read: UpdateReader, known: set<Option<UpdateCandidate>>, p: ProgramRecord,
                         addOns: seq<Indexed>, games: seq<Indexed>, disabled: map<nat, seq<Bytes>>)
    requires NoCollisions(known) && Trusted(read, known, p) && Chosen(p.base, addOns, games, disabled) in known
    ensures var best := Chosen(p.base, addOns, games, disabled);
            var r := RefreshUpdate(read, p, addOns, games, disabled).program;
            && r.base == p.base && r.updateValid && r.updateFingerprint == FingerprintOf(best)
            && r.update == UpdateFrom(read, p.base, best)
            && Trusted(read, known, r)
            && Reported(r).effective == Some(Overlay(p.base, UpdateFrom(read, p.base, best)))
  {
    hide FingerprintOf, Stream, Chosen, Overlay, UpdateFrom;
    var best := Chosen(p.base, addOns, games, disabled);
    if p.updateValid && p.updateFingerprint == FingerprintOf(best) {
      var c :| c in known && p.updateFingerprint == FingerprintOf(c) && p.update == UpdateFrom(read, p.base, c);
      StreamIsUnique(c, best);
    }
  }

  // ----- what a collision does

  /** A program that remembers the update of `c`. */
  function Remembering(read: UpdateReader, m: Metadata, c: Option<UpdateCandidate>): ProgramRecord {
    ProgramRecord(m, true, FingerprintOf(c), UpdateFrom(read, m, c), None)
  }

  predicate IsCurrent(read: UpdateReader, m: Metadata, c: Option<UpdateCandidate>, addOns: seq<Indexed>,
                      games: seq<Indexed>, disabled: map<nat, seq<Bytes>>) {
    RefreshUpdate(read, Remembering(read, m, c), addOns, games, disabled).program.update
    == UpdateFrom(read, m, Chosen(m, addOns, games, disabled))
  }

  /** Nothing to read, or the same contents of the same file. */
  predicate SameSource(a: Option<UpdateCandidate>, b: Option<UpdateCandidate>) {
    if a.Some? && b.Some? then a.value.path == b.value.path && a.value.stamp == b.value.stamp
    else a.None? && b.None?
  }

  /** Files that make the updates of two sources differ. */
  function Telling(a: Option<UpdateCandidate>): UpdateReader {
    (path, stamp, _) =>
      if a.None? || (path == a.value.path && stamp == a.value.stamp) then Update([1], [], []) else NO_UPDATE
  }

  lemma SourcesDiffer(m: Metadata, a: Option<UpdateCandidate>, b: Option<UpdateCandidate>)
    requires !SameSource(a, b)
    ensures UpdateFrom(Telling(a), m, a) != UpdateFrom(Telling(a), m, b)
  {
  }

  /** Whatever the files hold, a program that remembers one update carries the chosen one after
      the refresh if and only if the two do not share a fingerprint, or are read from the same
      contents anyway: with a shared fingerprint the old update is kept. */
  lemma CurrentUnlessCollision(m: Metadata, c: Option<UpdateCandidate>, addOns: seq<Indexed>, games: seq<Indexed>,
                               disabled: map<nat, seq<Bytes>>)
    ensures (forall read :: IsCurrent(read, m, c, addOns, games, disabled)) <==>
            (FingerprintOf(c) == FingerprintOf(Chosen(m, addOns, games, disabled)) ==>
               SameSource(c, Chosen(m, addOns, games, disabled)))
  {
    hide FingerprintOf, Chosen;
    var best := Chosen(m, addOns, games, disabled);
    if FingerprintOf(c) == FingerprintOf(best) && !SameSource(c, best) {
      SourcesDiffer(m, c, best);
      assert !IsCurrent(Telling(c), m, c, addOns, games, disabled);
    }
  }
}
