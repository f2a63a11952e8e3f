/** Which update every application of a completed scan is listed with, told by the files of the
    scan alone. */
module GameListChoice {
  import opened Bytes
  import opened Options
  import opened NameOrder
  import opened PathOrder
  import opened GameListRecords
  import opened GameListUpdates
  import opened GameListScan
  import opened GameListAgreement
  import opened GameListReports

  datatype Origin = AddOnDirectories | GameDirectories

  predicate HasControl(entries: seq<AddOnEntry>, titleId: nat, version: nat) {
    exists i :: 0 <= i < |entries| && IsControlUpdate(entries[i])
      && entries[i].titleId == titleId && entries[i].version == version
  }

  /** A file of the scan holds a Control update of the title. */
  predicate Offers(env: Env, input: Input, o: Origin, u: UpdateCandidate, titleId: nat) {
    match o
    case AddOnDirectories =>
      var files := Joined(input.addOnListings);
      && Mentions(files, u.path) && u.stamp == LastStamp(files, u.path)
      && HasControl(env.readAddOns(u.path, u.stamp), titleId, u.version)
    case GameDirectories =>
      var files := Joined(input.gameListings);
      && Mentions(files, u.path) && u.stamp == FirstStamp(files, u.path)
      && HasControl(env.parse(u.path, u.stamp).addOns, titleId, u.version)
  }

  /** It is offered for the application, and neither all updates nor this version of it is
      disabled. */
  predicate Available(env: Env, input: Input, m: Metadata, o: Origin, u: UpdateCandidate) {
    && ProgramIdOf(m) != 0
    && Offers(env, input, o, u, UpdateTitleOf(ProgramIdOf(m)))
    && !IsUpdateDisabled(DisabledFor(m, input.disabled), u.version)
  }

  /** Add-on directories before game directories, and then the order of the paths. */
  predicate Precedes(o: Origin, p: Path, o': Origin, p': Path) {
    (o.AddOnDirectories? && o'.GameDirectories?) || (o == o' && NotAfter(p, p'))
  }

  /** Available, and nothing available is newer, or as new and before it. */
  ghost predicate Wins(env: Env, input: Input, m: Metadata, o: Origin, u: UpdateCandidate) {
    && Available(env, input, m, o, u)
    && forall o', v :: Available(env, input, m, o', v) ==>
         v.version < u.version || (v.version == u.version && Precedes(o, u.path, o', v.path))
  }

  // ----- the winner is determined

  lemma NotAfterBoth(p: Path, q: Path)
    requires NotAfter(p, q) && NotAfter(q, p)
    ensures p == q
  {
    if p != q {
      NameLessAsymmetric(p, q);
    }
  }

  lemma OneWinner(env: Env, input: Input, m: Metadata, o: Origin, u: UpdateCandidate, o': Origin, v: UpdateCandidate)
    requires Wins(env, input, m, o, u) && Wins(env, input, m, o', v)
    ensures o == o' && u == v
  {
    hide HasControl, Mentions, FirstStamp, LastStamp, NotAfter, IsUpdateDisabled;
    assert Available(env, input, m, o, u) && Available(env, input, m, o', v);
    NotAfterBoth(u.path, v.path);
  }

  // ----- what the two indices offer

  lemma AddOnOffers(env: Env, input: Input, titleId: nat, c: UpdateCandidate)
    ensures var index := AddOnIndex(InOrder(FinalAddOns(env, Joined(input.addOnListings))));
            c in EqualRange(index, titleId) <==> Offers(env, input, AddOnDirectories, c, titleId)
  {
    hide EqualRange, AddOnIndex, InOrder, FromEntries, Mentions, LastStamp, Joined;
    var m := FinalAddOns(env, Joined(input.addOnListings));
    var fs := InOrder(m);
    InOrderFiles(m);
    RangeHolds(AddOnIndex(fs), titleId, c);
    AddOnIndexHolds(fs, Indexed(titleId, c));
    if c in EqualRange(AddOnIndex(fs), titleId) {
      var i :| 0 <= i < |fs| && fs[i].record.seen
        && Indexed(titleId, c) in FromEntries(fs[i].path, fs[i].record.stamp, fs[i].record.entries);
      EntriesHold(fs[i].path, fs[i].record.stamp, fs[i].record.entries, Indexed(titleId, c));
    }
    if Offers(env, input, AddOnDirectories, c, titleId) {
      assert IsFiled(fs, c.path);
      var i :| 0 <= i < |fs| && fs[i].path == c.path;
      EntriesHold(fs[i].path, fs[i].record.stamp, fs[i].record.entries, Indexed(titleId, c));
    }
  }

  /** The record of a listed game file, before updates are chosen. */
  lemma BareRecord(env: Env, files: seq<DirFile>, p: Path)
    ensures p in BareGames(env, files) <==> Mentions(files, p)
    ensures Mentions(files, p) ==>
            var r := BareGames(env, files)[p];
            r.seen && r.stamp == FirstStamp(files, p) && r.addOns == env.parse(p, r.stamp).addOns
  {
    hide Mentions, FirstStamp, NewPrograms;
  }

  lemma GameOffers(env: Env, input: Input, titleId: nat, c: UpdateCandidate)
    ensures var index := FinalIndex(env, Joined(input.gameListings));
            c in EqualRange(index, titleId) <==> Offers(env, input, GameDirectories, c, titleId)
  {
    hide EqualRange, GameIndex, InOrder, FromEntries, Mentions, FirstStamp, Joined, BareGames;
    var m := BareGames(env, Joined(input.gameListings));
    var fs := InOrder(m);
    InOrderFiles(m);
    RangeHolds(GameIndex(fs), titleId, c);
    GameIndexHolds(fs, Indexed(titleId, c));
    BareRecord(env, Joined(input.gameListings), c.path);
    if c in EqualRange(GameIndex(fs), titleId) {
      var i :| 0 <= i < |fs| && fs[i].record.seen
        && Indexed(titleId, c) in FromEntries(fs[i].path, fs[i].record.stamp, fs[i].record.addOns);
      EntriesHold(fs[i].path, fs[i].record.stamp, fs[i].record.addOns, Indexed(titleId, c));
    }
    if Offers(env, input, GameDirectories, c, titleId) {
      assert IsFiled(fs, c.path);
      var i :| 0 <= i < |fs| && fs[i].path == c.path;
      EntriesHold(fs[i].path, fs[i].record.stamp, fs[i].record.addOns, Indexed(titleId, c));
    }
  }

  lemma WalkIsOrdered<T(!new)>(m: map<Path, T>)
    ensures forall i, j :: 0 <= i < j < |InOrder(m)| ==> NameLess(InOrder(m)[i].path, InOrder(m)[j].path)
  {
    hide SortedKeys, NameLess;
    SortedKeysOrdered(m.Keys);
  }

  lemma AddOnsInOrder(m: AddOnFiles, titleId: nat)
    ensures CandidatesInPathOrder(EqualRange(AddOnIndex(InOrder(m)), titleId))
  {
    hide InOrder, AddOnIndex, EqualRange, CandidatesInPathOrder, InPathOrder;
    WalkIsOrdered(m);
    AddOnIndexInPathOrder(InOrder(m));
    RangeInPathOrder(AddOnIndex(InOrder(m)), titleId);
  }

  lemma GamesInOrder(m: GameFiles, titleId: nat)
    ensures CandidatesInPathOrder(EqualRange(GameIndex(InOrder(m)), titleId))
  {
    hide InOrder, GameIndex, EqualRange, CandidatesInPathOrder, InPathOrder;
    WalkIsOrdered(m);
    GameIndexInPathOrder(InOrder(m));
    RangeInPathOrder(GameIndex(InOrder(m)), titleId);
  }

  // ----- the choice is the winner

  /** An element of two lists, one behind the other, with the list it is from. */
  predicate At(a: seq<UpdateCandidate>, b: seq<UpdateCandidate>, k: int, o: Origin, u: UpdateCandidate) {
    match o
    case AddOnDirectories => 0 <= k < |a| && a[k] == u
    case GameDirectories => |a| <= k < |a| + |b| && b[k - |a|] == u
  }

  /** Where it comes first, it precedes. */
  lemma EarlierPrecedes(a: seq<UpdateCandidate>, b: seq<UpdateCandidate>, k: int, o: Origin, u: UpdateCandidate,
                        k': int, o': Origin, v: UpdateCandidate)
    requires CandidatesInPathOrder(a) && CandidatesInPathOrder(b)
    requires At(a, b, k, o, u) && At(a, b, k', o', v) && k <= k'
    ensures Precedes(o, u.path, o', v.path)
  {
  }

  lemma ChoiceWins(env: Env, input: Input, m: Metadata, a: seq<UpdateCandidate>, b: seq<UpdateCandidate>, k: int)
    requires ProgramIdOf(m) != 0 && CandidatesInPathOrder(a) && CandidatesInPathOrder(b)
    requires forall c :: c in a <==> Offers(env, input, AddOnDirectories, c, UpdateTitleOf(ProgramIdOf(m)))
    requires forall c :: c in b <==> Offers(env, input, GameDirectories, c, UpdateTitleOf(ProgramIdOf(m)))
    requires IsChoice(a + b, DisabledFor(m, input.disabled), k)
    ensures exists o :: Wins(env, input, m, o, (a + b)[k])
  {
    hide Offers, IsUpdateDisabled, CandidatesInPathOrder, Precedes, DisabledFor;
    var u := (a + b)[k];
    var o := if k < |a| then AddOnDirectories else GameDirectories;
    assert At(a, b, k, o, u);
    forall o', v | Available(env, input, m, o', v)
      ensures v.version < u.version || (v.version == u.version && Precedes(o, u.path, o', v.path))
    {
      var k' := Located(env, input, m, a, b, o', v);
      assert (a + b)[k'] == v;
      if v.version == u.version {
        EarlierPrecedes(a, b, k, o, u, k', o', v);
      }
    }
    assert Wins(env, input, m, o, u);
  }

  lemma Located(env: Env, input: Input, m: Metadata, a: seq<UpdateCandidate>, b: seq<UpdateCandidate>, o: Origin,
                v: UpdateCandidate)
    returns (k: int)
    requires Available(env, input, m, o, v)
    requires forall c :: c in a <==> Offers(env, input, AddOnDirectories, c, UpdateTitleOf(ProgramIdOf(m)))
    requires forall c :: c in b <==> Offers(env, input, GameDirectories, c, UpdateTitleOf(ProgramIdOf(m)))
    ensures 0 <= k < |a + b| && At(a, b, k, o, v) && (a + b)[k] == v
  {
    hide Offers, IsUpdateDisabled;
    if o.AddOnDirectories? {
      assert v in a;
      k :| 0 <= k < |a| && a[k] == v;
    } else {
      assert v in b;
      var j :| 0 <= j < |b| && b[j] == v;
      k := |a| + j;
    }
  }

  /** What the loops of `RefreshUpdate` choose from the indices of a completed scan wins among
      everything available, and they choose nothing exactly if nothing is available. */
  lemma ChosenWins(env: Env, input: Input, m: Metadata)
    ensures var best := Chosen(m, AddOnIndex(InOrder(FinalAddOns(env, Joined(input.addOnListings)))),
                               FinalIndex(env, Joined(input.gameListings)), input.disabled);
            && (best.Some? <==> exists o, u :: Available(env, input, m, o, u))
            && (best.Some? ==> exists o :: Wins(env, input, m, o, best.value))
  {
    hide EqualRange, AddOnIndex, GameIndex, InOrder, Joined, FinalAddOns, BareGames, Offers, IsUpdateDisabled, Best,
         Wins, CandidatesInPathOrder;
    if ProgramIdOf(m) == 0 {
      assert Best([], DisabledFor(m, input.disabled)) == None by { NothingIsNone(DisabledFor(m, input.disabled)); }
    } else {
      var addOns, games := FinalAddOns(env, Joined(input.addOnListings)), BareGames(env, Joined(input.gameListings));
      var t := UpdateTitleOf(ProgramIdOf(m));
      var a, b := EqualRange(AddOnIndex(InOrder(addOns)), t), EqualRange(GameIndex(InOrder(games)), t);
      forall c
        ensures c in a <==> Offers(env, input, AddOnDirectories, c, t)
        ensures c in b <==> Offers(env, input, GameDirectories, c, t)
      {
        AddOnOffers(env, input, t, c);
        GameOffers(env, input, t, c);
      }
      AddOnsInOrder(addOns, t);
      GamesInOrder(games, t);
      ChosenFrom(env, input, m, a, b);
    }
  }

  lemma NothingIsNone(disabled: seq<Bytes>)
    ensures Best([], disabled) == None
  {
  }

  lemma ChosenFrom(env: Env, input: Input, m: Metadata, a: seq<UpdateCandidate>, b: seq<UpdateCandidate>)
    requires ProgramIdOf(m) != 0 && CandidatesInPathOrder(a) && CandidatesInPathOrder(b)
    requires forall c :: c in a <==> Offers(env, input, AddOnDirectories, c, UpdateTitleOf(ProgramIdOf(m)))
    requires forall c :: c in b <==> Offers(env, input, GameDirectories, c, UpdateTitleOf(ProgramIdOf(m)))
    ensures var best := Best(a + b, DisabledFor(m, input.disabled));
            && (best.Some? <==> exists o, u :: Available(env, input, m, o, u))
            && (best.Some? ==> exists o :: Wins(env, input, m, o, best.value))
  {
    hide Best, Offers, IsUpdateDisabled, CandidatesInPathOrder, Wins, DisabledFor;
    var disabled := DisabledFor(m, input.disabled);
    var best := Best(a + b, disabled);
    BestIsHighestThenFirst(a + b, disabled);
    if best.Some? {
      var k :| IsChoice(a + b, disabled, k) && (a + b)[k] == best.value;
      ChoiceWins(env, input, m, a, b, k);
      var o :| Wins(env, input, m, o, best.value);
      WinnerIsAvailable(env, input, m, o, best.value);
    }
    if exists o, u :: Available(env, input, m, o, u) {
      var o, u :| Available(env, input, m, o, u);
      var k := Located(env, input, m, a, b, o, u);
    }
  }

  lemma WinnerIsAvailable(env: Env, input: Input, m: Metadata, o: Origin, u: UpdateCandidate)
    requires Wins(env, input, m, o, u)
    ensures Available(env, input, m, o, u)
  {
  }

  // ----- over a whole scan

  /** The application at `i` of the game file at `p`, as the listings and the file give it. */
  predicate IsProgram(env: Env, input: Input, p: Path, i: nat) {
    && Mentions(Joined(input.gameListings), p)
    && var file := env.parse(p, FirstStamp(Joined(input.gameListings), p)); file.AGame? && i < |file.programs|
  }

  function ProgramAt(env: Env, input: Input, p: Path, i: nat): Metadata
    requires IsProgram(env, input, p, i)
  {
    env.parse(p, FirstStamp(Joined(input.gameListings), p)).programs[i]
  }

  /** It carries the winning update, or none if none is available, and the last report about it
      shows its base overlaid with that. */
  ghost predicate CarriesTheWinner(env: Env, input: Input, done: State, p: Path, i: nat)
    requires IsProgram(env, input, p, i)
  {
    && p in done.records.gameFiles && i < |done.records.gameFiles[p].programs|
    && var m, r := ProgramAt(env, input, p, i), done.records.gameFiles[p].programs[i];
    && r.base == m
    && ((exists o, u :: Available(env, input, m, o, u)) ==>
          exists o, u :: Wins(env, input, m, o, u)
            && r.update == env.readUpdate(u.path, u.stamp, UpdateTitleOf(ProgramIdOf(m))))
    && ((forall o, u :: !Available(env, input, m, o, u)) ==> r.update == NO_UPDATE)
    && LastFor(done.reports, p, i) == Some(Overlay(m, r.update))
  }

  /** After a completed scan with complete listings, whatever the cache held before: every
      application carries the update of the highest available version, add-on directories
      before game directories and smaller paths before larger ones among equals; there is such an
      update exactly if one is available, and otherwise the application carries none; and the
      last report about it is its base overlaid with what it carries. */
  lemma EveryProgramCarriesTheWinner(env: Env, known: set<Option<UpdateCandidate>>, s: State, input: Input, p: Path,
                                     i: nat)
    requires TrustedRecords(env, known, s.records) && NoCollisions(known)
    requires FullyListed(input) && KnowsInput(env, known, input) && IsProgram(env, input, p, i)
    ensures CarriesTheWinner(env, input, Scan(env, s, input), p, i)
  {
    hide TrustedRecords, NoCollisions, KnowsInput, FinalAddOns, Joined, FinalIndex, AddOnIndex, InOrder, Mentions,
         FirstStamp;
    hide LastFor, Overlay, FingerprintOf, Wins, Available, Scan, Chosen;
    CompletedScan(env, known, s, input);
    LastReportIsOverlay(env, known, s, input, p, i);
    ChosenWins(env, input, ProgramAt(env, input, p, i));
  }
}
