/** `ListDirectory` (src/nxemu-loader/game_list_cache.cpp:574-626): a walk with an explicit stack
    visits the files of a tree in the order of the recursive one. */
module GameListListing {
  import opened PathOrder
  import opened Sequences
  import opened GameListRecords
  import opened GameListScan
  import opened GameListAgreement

  /** What the iterator yields and what the callbacks say about it. Entering a directory may be
      refused after looking at some files of it (`extra`). */
  datatype Entry =
    | FileEntry(path: Path)
    | DirEntry(dir: Directory, enter: bool, extra: seq<Path>)
    | Unreadable(gone: bool)
    | OtherEntry

  /** The entries up to the first error of the iterator, and whether there was one; a directory
      one has no permission for yields no entries and no error. */
  datatype Directory = Directory(entries: seq<Entry>, broken: bool)

  // ----- the recursive walk

  function FilesOf(e: Entry): seq<Path> {
    match e
    case FileEntry(path) => [path]
    case DirEntry(_, _, extra) => extra
    case _ => []
  }

  function FilesIn(entries: seq<Entry>): seq<Path> {
    if entries == [] then [] else FilesIn(entries[..|entries| - 1]) + FilesOf(entries[|entries| - 1])
  }

  predicate Entered(e: Entry) {
    e.DirEntry? && e.enter
  }

  /** The files of a directory first, then those of its subdirectories, in order. */
  function Visit(d: Directory): seq<Path>
    decreases d, |d.entries| + 1
  {
    FilesIn(d.entries) + VisitSubs(d, 0)
  }

  function VisitSubs(d: Directory, k: nat): seq<Path>
    decreases d, if k < |d.entries| then |d.entries| - k else 0
  {
    if k >= |d.entries| then []
    else if Entered(d.entries[k]) then Visit(d.entries[k].dir) + VisitSubs(d, k + 1)
    else VisitSubs(d, k + 1)
  }

  predicate Failed(e: Entry) {
    e.Unreadable? && !e.gone
  }

  predicate NoneFailed(entries: seq<Entry>) {
    forall i :: 0 <= i < |entries| ==> !Failed(entries[i])
  }

  /** A failure is noted and stays noted. */
  function Noted(listing: Outcome, entries: seq<Entry>): Outcome {
    if NoneFailed(entries) then listing else Incomplete
  }

  /** Every directory that is entered is read in full. */
  predicate FullyRead(d: Directory)
    decreases d, |d.entries| + 1
  {
    !d.broken && NoneFailed(d.entries) && SubsRead(d, 0)
  }

  predicate SubsRead(d: Directory, k: nat)
    decreases d, if k < |d.entries| then |d.entries| - k else 0
  {
    k >= |d.entries| || ((Entered(d.entries[k]) ==> FullyRead(d.entries[k].dir)) && SubsRead(d, k + 1))
  }

  function Weight(d: Directory): nat
    decreases d, |d.entries| + 1
  {
    1 + SubWeights(d, 0)
  }

  function SubWeights(d: Directory, k: nat): nat
    decreases d, if k < |d.entries| then |d.entries| - k else 0
  {
    if k >= |d.entries| then 0
    else (if Entered(d.entries[k]) then Weight(d.entries[k].dir) else 0) + SubWeights(d, k + 1)
  }

  // ----- the subdirectories as a list

  function Subs(entries: seq<Entry>): seq<Directory> {
    if entries == [] then []
    else Subs(entries[..|entries| - 1]) + (if Entered(entries[|entries| - 1]) then [entries[|entries| - 1].dir] else [])
  }

  function VisitList(ds: seq<Directory>): seq<Path> {
    if ds == [] then [] else Visit(ds[0]) + VisitList(ds[1..])
  }

  predicate ListRead(ds: seq<Directory>) {
    forall i :: 0 <= i < |ds| ==> FullyRead(ds[i])
  }

  function ListWeight(ds: seq<Directory>): nat {
    if ds == [] then 0 else Weight(ds[0]) + ListWeight(ds[1..])
  }

  lemma {:induction false} VisitListConcat(a: seq<Directory>, b: seq<Directory>)
    ensures VisitList(a + b) == VisitList(a) + VisitList(b) && ListWeight(a + b) == ListWeight(a) + ListWeight(b)
  {
    hide Visit, Weight;
    if a == [] {
      assert a + b == b;
    } else {
      assert (a + b)[1..] == a[1..] + b;
      VisitListConcat(a[1..], b);
    }
  }

  /** The same list, from an entry on. */
  function SubsFrom(entries: seq<Entry>, k: nat): seq<Directory>
    decreases if k < |entries| then |entries| - k else 0
  {
    if k >= |entries| then []
    else if Entered(entries[k]) then [entries[k].dir] + SubsFrom(entries, k + 1)
    else SubsFrom(entries, k + 1)
  }

  lemma {:induction false} SubsSplit(entries: seq<Entry>, k: nat)
    requires k <= |entries|
    ensures Subs(entries[..k]) + SubsFrom(entries, k) == Subs(entries)
    decreases |entries| - k
  {
    if k == |entries| {
      assert entries[..k] == entries;
    } else {
      SubsSplit(entries, k + 1);
      assert entries[..k + 1][..k] == entries[..k];
    }
  }

  lemma {:induction false} VisitFrom(d: Directory, k: nat)
    ensures VisitSubs(d, k) == VisitList(SubsFrom(d.entries, k))
    ensures SubWeights(d, k) == ListWeight(SubsFrom(d.entries, k))
    decreases if k < |d.entries| then |d.entries| - k else 0
  {
    hide Visit, Weight;
    if k < |d.entries| {
      VisitFrom(d, k + 1);
      if Entered(d.entries[k]) {
        assert SubsFrom(d.entries, k)[1..] == SubsFrom(d.entries, k + 1);
      }
    }
  }

  lemma {:induction false} ReadFrom(d: Directory, k: nat)
    ensures SubsRead(d, k) <==> ListRead(SubsFrom(d.entries, k))
    decreases if k < |d.entries| then |d.entries| - k else 0
  {
    hide FullyRead;
    if k < |d.entries| {
      ReadFrom(d, k + 1);
      if Entered(d.entries[k]) {
        ReadConcat([d.entries[k].dir], SubsFrom(d.entries, k + 1));
        assert [d.entries[k].dir][0] == d.entries[k].dir;
      }
    }
  }

  /** Visiting a directory is visiting its files and then the list of its subdirectories. */
  lemma VisitIsList(d: Directory)
    ensures Visit(d) == FilesIn(d.entries) + VisitList(Subs(d.entries))
    ensures Weight(d) == 1 + ListWeight(Subs(d.entries))
    ensures FullyRead(d) <==> !d.broken && NoneFailed(d.entries) && ListRead(Subs(d.entries))
  {
    SubsSplit(d.entries, 0);
    assert d.entries[..0] == [];
    assert [] + SubsFrom(d.entries, 0) == SubsFrom(d.entries, 0);
    VisitFrom(d, 0);
    ReadFrom(d, 0);
  }

  // ----- what lies in a tree

  /** Following entered directories by their places among the entries leads to `to`. */
  ghost predicate Leads(d: Directory, way: seq<nat>, to: Directory)
    decreases |way|
  {
    if way == [] then to == d
    else way[0] < |d.entries| && Entered(d.entries[way[0]]) && Leads(d.entries[way[0]].dir, way[1..], to)
  }

  ghost predicate HasFile(d: Directory, p: Path) {
    exists i :: 0 <= i < |d.entries| && p in FilesOf(d.entries[i])
  }

  lemma {:induction false} FilesInHolds(entries: seq<Entry>, p: Path)
    ensures p in FilesIn(entries) <==> exists i :: 0 <= i < |entries| && p in FilesOf(entries[i])
  {
    hide FilesOf;
    if entries != [] {
      var front := entries[..|entries| - 1];
      FilesInHolds(front, p);
      assert forall i :: 0 <= i < |front| ==> front[i] == entries[i];
    }
  }

  lemma {:induction false} SubsHold(d: Directory, k: nat, p: Path)
    ensures p in VisitSubs(d, k) <==>
              exists i :: k <= i < |d.entries| && Entered(d.entries[i]) && p in Visit(d.entries[i].dir)
    decreases if k < |d.entries| then |d.entries| - k else 0
  {
    hide Visit;
    if k < |d.entries| {
      SubsHold(d, k + 1, p);
    }
  }

  lemma {:induction false} SubsAreRead(d: Directory, k: nat)
    ensures SubsRead(d, k) <==>
              forall i :: k <= i < |d.entries| && Entered(d.entries[i]) ==> FullyRead(d.entries[i].dir)
    decreases if k < |d.entries| then |d.entries| - k else 0
  {
    hide FullyRead;
    if k < |d.entries| {
      SubsAreRead(d, k + 1);
    }
  }

  lemma {:induction false} WayToFile(d: Directory, p: Path) returns (way: seq<nat>, to: Directory)
    requires p in Visit(d)
    ensures Leads(d, way, to) && HasFile(to, p)
    decreases d
  {
    FilesInHolds(d.entries, p);
    if p in FilesIn(d.entries) {
      way, to := [], d;
    } else {
      SubsHold(d, 0, p);
      var i :| 0 <= i < |d.entries| && Entered(d.entries[i]) && p in Visit(d.entries[i].dir);
      var rest, end := WayToFile(d.entries[i].dir, p);
      way, to := [i] + rest, end;
      assert way[1..] == rest;
    }
  }

  lemma {:induction false} FileOnTheWay(d: Directory, way: seq<nat>, to: Directory, p: Path)
    requires Leads(d, way, to) && HasFile(to, p)
    ensures p in Visit(d)
    decreases |way|
  {
    if way == [] {
      FilesInHolds(d.entries, p);
    } else {
      FileOnTheWay(d.entries[way[0]].dir, way[1..], to, p);
      SubsHold(d, 0, p);
    }
  }

  /** The files visited are exactly those of the directories that can be entered. */
  lemma VisitHolds(d: Directory, p: Path)
    ensures p in Visit(d) <==> exists way, to :: Leads(d, way, to) && HasFile(to, p)
  {
    hide Visit, Leads, HasFile;
    if p in Visit(d) {
      var way, to := WayToFile(d, p);
      assert Leads(d, way, to) && HasFile(to, p);
    }
    forall way, to | Leads(d, way, to) && HasFile(to, p)
      ensures p in Visit(d)
    {
      FileOnTheWay(d, way, to, p);
    }
  }

  lemma {:induction false} UnreadOnTheWay(d: Directory, way: seq<nat>, to: Directory)
    requires Leads(d, way, to) && FullyRead(d)
    ensures !to.broken && NoneFailed(to.entries)
    decreases |way|
  {
    if way != [] {
      SubsAreRead(d, 0);
      UnreadOnTheWay(d.entries[way[0]].dir, way[1..], to);
    }
  }

  lemma {:induction false} WayToUnread(d: Directory) returns (way: seq<nat>, to: Directory)
    requires !FullyRead(d)
    ensures Leads(d, way, to) && (to.broken || !NoneFailed(to.entries))
    decreases d
  {
    if d.broken || !NoneFailed(d.entries) {
      way, to := [], d;
    } else {
      SubsAreRead(d, 0);
      var i :| 0 <= i < |d.entries| && Entered(d.entries[i]) && !FullyRead(d.entries[i].dir);
      var rest, end := WayToUnread(d.entries[i].dir);
      way, to := [i] + rest, end;
      assert way[1..] == rest;
    }
  }

  /** A tree is fully read if and only if no directory that can be entered breaks off or has an
      entry that cannot be read, other than one that is gone. */
  lemma FullyReadIs(d: Directory)
    ensures FullyRead(d) <==>
              forall way, to :: Leads(d, way, to) ==>
                !to.broken && forall i :: 0 <= i < |to.entries| && to.entries[i].Unreadable? ==> to.entries[i].gone
  {
    hide FullyRead, Leads;
    if FullyRead(d) {
      forall way, to | Leads(d, way, to)
        ensures !to.broken && NoneFailed(to.entries)
      {
        UnreadOnTheWay(d, way, to);
      }
    } else {
      var way, to := WayToUnread(d);
      assert Leads(d, way, to);
      if !to.broken {
        var i :| 0 <= i < |to.entries| && Failed(to.entries[i]);
        assert to.entries[i].Unreadable? && !to.entries[i].gone;
      }
    }
  }

  // ----- the stack

  lemma {:induction false} FilesInLast(entries: seq<Entry>, i: nat)
    requires i < |entries|
    ensures FilesIn(entries[..i + 1]) == FilesIn(entries[..i]) + FilesOf(entries[i])
    ensures Subs(entries[..i + 1]) == Subs(entries[..i]) + (if Entered(entries[i]) then [entries[i].dir] else [])
  {
    assert entries[..i + 1][..i] == entries[..i];
  }

  lemma {:induction false} FilesInPrefix(entries: seq<Entry>, i: nat)
    requires i <= |entries|
    ensures FilesIn(entries[..i]) <= FilesIn(entries)
    decreases |entries| - i
  {
    if i == |entries| {
      assert entries[..i] == entries;
    } else {
      FilesInPrefix(entries, i + 1);
      FilesInLast(entries, i);
    }
  }

  lemma PrefixOfSum(a: seq<Path>, b: seq<Path>, c: seq<Path>, d: seq<Path>)
    requires b <= c
    ensures a + b <= a + (c + d)
  {
  }

  lemma ReadConcat(a: seq<Directory>, b: seq<Directory>)
    ensures ListRead(a + b) <==> ListRead(a) && ListRead(b)
  {
    hide FullyRead;
    if ListRead(a + b) {
      forall i | 0 <= i < |a|
        ensures FullyRead(a[i])
      {
        assert (a + b)[i] == a[i];
      }
      forall i | 0 <= i < |b|
        ensures FullyRead(b[i])
      {
        assert (a + b)[|a| + i] == b[i];
      }
    }
  }

  /** The walk: `pending` is a stack, and each directory's children go on it in reverse, so that
      the first is on top. */
  class Walker {
    /** Whether the user has asked to stop, at each time it is asked. */
    const stopRequested: nat -> bool
    var asked: nat
    var visited: seq<Path>
    var listing: Outcome

    constructor (stopRequested: nat -> bool)
      ensures this.stopRequested == stopRequested && visited == [] && listing == Complete
    {
      this.stopRequested := stopRequested;
      asked, visited, listing := 0, [], Complete;
    }

    method ScanStopRequested() returns (stop: bool)
      modifies this`asked
      ensures stop == stopRequested(old(asked)) && asked == old(asked) + 1
    {
      stop := stopRequested(asked);
      asked := asked + 1;
    }

    method ReadEntry(e: Entry, found: seq<Directory>) returns (children: seq<Directory>)
      modifies this`visited, this`listing
      ensures visited == old(visited) + FilesOf(e)
      ensures children == found + (if Entered(e) then [e.dir] else [])
      ensures listing == if Failed(e) then Incomplete else old(listing)
    {
      children := found;
      match e
      case Unreadable(gone) =>
        if !gone {
          listing := Incomplete;
        }
      case FileEntry(path) => visited := visited + [path];
      case DirEntry(dir, enter, extra) =>
        visited := visited + extra;
        if enter {
          children := children + [dir];
        }
      case OtherEntry =>
    }

    /** The entries of one directory: files are visited, subdirectories collected. */
    method ReadEntries(entries: seq<Entry>) returns (stopped: bool, children: seq<Directory>)
      modifies this
      ensures !stopped ==> visited == old(visited) + FilesIn(entries) && children == Subs(entries)
      ensures stopped ==> old(visited) <= visited && visited <= old(visited) + FilesIn(entries)
      ensures !stopped ==> listing == Noted(old(listing), entries)
    {
      hide FilesIn, Subs, FilesOf, Noted, Entered;
      children := [];
      NoneYet(old(visited), listing, entries);
      for i := 0 to |entries|
        invariant visited == old(visited) + FilesIn(entries[..i]) && children == Subs(entries[..i])
        invariant listing == Noted(old(listing), entries[..i])
      {
        var stop := ScanStopRequested();
        if stop {
          FilesInPrefix(entries, i);
          FrontStays(old(visited), FilesIn(entries[..i]), FilesIn(entries));
          return true, [];
        }
        OneMore(old(visited), old(listing), entries, i);
        children := ReadEntry(entries[i], children);
      }
      assert entries[..|entries|] == entries;
      stopped := false;
    }

    method ReadDirectory(d: Directory) returns (stopped: bool, children: seq<Directory>)
      modifies this
      ensures !stopped ==> visited == old(visited) + FilesIn(d.entries) && children == Subs(d.entries)
      ensures stopped ==> old(visited) <= visited && visited <= old(visited) + FilesIn(d.entries)
      ensures !stopped && !d.broken && NoneFailed(d.entries) ==> listing == old(listing)
      ensures !stopped && !(!d.broken && NoneFailed(d.entries)) ==> listing == Incomplete
    {
      hide FilesIn, Subs, NoneFailed;
      stopped, children := ReadEntries(d.entries);
      if !stopped && d.broken {
        listing := Incomplete;
      }
    }

    static lemma NoneYet(visited: seq<Path>, listing: Outcome, entries: seq<Entry>)
      ensures visited == visited + FilesIn(entries[..0]) && Subs(entries[..0]) == []
        && listing == Noted(listing, entries[..0])
    {
    }

    static lemma FrontStays(a: seq<Path>, b: seq<Path>, c: seq<Path>)
      requires b <= c
      ensures a <= a + b && a + b <= a + c
    {
    }

    static lemma OneMore(visited: seq<Path>, listing: Outcome, entries: seq<Entry>, i: nat)
      requires i < |entries|
      ensures visited + FilesIn(entries[..i + 1]) == visited + FilesIn(entries[..i]) + FilesOf(entries[i])
      ensures Subs(entries[..i + 1]) == Subs(entries[..i]) + (if Entered(entries[i]) then [entries[i].dir] else [])
      ensures Noted(listing, entries[..i + 1]) == if Failed(entries[i]) then Incomplete
        else Noted(listing, entries[..i])
    {
      hide FilesIn, Subs, FilesOf, Entered;
      FilesInLast(entries, i);
      if NoneFailed(entries[..i + 1]) {
        forall j | 0 <= j < i
          ensures !Failed(entries[..i][j])
        {
          assert entries[..i + 1][j] == entries[..i][j];
        }
        assert entries[..i + 1][i] == entries[i];
      }
    }

    /** Unless it is stopped, the walk visits exactly the files of the recursive walk in its
        order, and it is complete exactly if every directory it entered was read in full; when
        it is stopped it has visited a first part of them. */
    method ListDirectory(root: Directory) returns (result: Outcome)
      requires visited == [] && listing == Complete
      modifies this
      ensures result != Stopped ==> visited == Visit(root)
      ensures result == Stopped ==> visited <= Visit(root)
      ensures result == Complete <==> result != Stopped && FullyRead(root)
    {
      hide Visit, FullyRead, Weight, FilesIn, Subs;
      var pending := [root];
      OnlyOne(root);
      while pending != []
        invariant visited + VisitList(Reversed(pending)) == Visit(root)
        invariant listing != Stopped
        invariant listing == Complete && ListRead(Reversed(pending)) <==> FullyRead(root)
        decreases ListWeight(Reversed(pending))
      {
        var directory, below := pending[|pending| - 1], pending[..|pending| - 1];
        ghost var before := visited;
        Top(pending);
        VisitIsList(directory);
        var stopped, children := ReadDirectory(directory);
        if stopped {
          StoppedInside(before, visited, directory, below);
          return Stopped;
        }
        pending := below + Reversed(children);
        ReversedAppend(below, children);
        VisitListConcat(children, Reversed(below));
        ReadConcat(children, Reversed(below));
        assert visited + VisitList(Reversed(pending))
          == before + (FilesIn(directory.entries) + VisitList(children)) + VisitList(Reversed(below));
      }
      result := listing;
    }

    static lemma OnlyOne(d: Directory)
      ensures VisitList(Reversed([d])) == Visit(d) && (ListRead(Reversed([d])) <==> FullyRead(d))
    {
      hide Visit, FullyRead;
      assert Reversed([d]) == [d];
      assert [d][1..] == [];
    }

    static lemma Top(pending: seq<Directory>)
      requires pending != []
      ensures var d, below := pending[|pending| - 1], pending[..|pending| - 1];
              && VisitList(Reversed(pending)) == Visit(d) + VisitList(Reversed(below))
              && ListWeight(Reversed(pending)) == Weight(d) + ListWeight(Reversed(below))
              && (ListRead(Reversed(pending)) <==> FullyRead(d) && ListRead(Reversed(below)))
    {
      hide Visit, FullyRead, Weight;
      var d, below := pending[|pending| - 1], pending[..|pending| - 1];
      assert pending == below + [d];
      ReversedSnoc(below, d);
      assert ([d] + Reversed(below))[1..] == Reversed(below);
      ReadConcat([d], Reversed(below));
      assert [d][0] == d;
    }

    static lemma StoppedInside(before: seq<Path>, now: seq<Path>, d: Directory, below: seq<Directory>)
      requires before <= now && now <= before + FilesIn(d.entries)
      ensures now <= before + (Visit(d) + VisitList(Reversed(below)))
    {
      VisitIsList(d);
      hide Visit, FilesIn, Subs;
      var files := now[|before|..];
      assert now == before + files;
      PrefixOfSum(before, files, FilesIn(d.entries), VisitList(Subs(d.entries)) + VisitList(Reversed(below)));
      assert FilesIn(d.entries) + (VisitList(Subs(d.entries)) + VisitList(Reversed(below)))
        == Visit(d) + VisitList(Reversed(below));
    }

    /** What a scan is given for a directory: the files it is interested in, with their stamps,
        and how the listing ended. */
    method List(root: Directory, wanted: Path -> bool, stampOf: Path -> FileStamp) returns (l: Listed)
      requires visited == [] && listing == Complete
      modifies this
      ensures l.outcome != Stopped ==> l == ListingOf(root, wanted, stampOf)
      ensures l.outcome == Stopped ==> l.files <= ListingOf(root, wanted, stampOf).files
    {
      hide Visit, FullyRead;
      var result := ListDirectory(root);
      var files: seq<DirFile> := [];
      for i := 0 to |visited|
        invariant files == Collected(visited[..i], wanted, stampOf)
      {
        assert visited[..i + 1][..i] == visited[..i];
        if wanted(visited[i]) {
          files := files + [DirFile(visited[i], stampOf(visited[i]))];
        }
      }
      assert visited[..|visited|] == visited;
      CollectedPrefix(visited, Visit(root), wanted, stampOf);
      l := Listed(files, result, |files|);
    }
  }

  // ----- what a scan sees of trees

  function Collected(paths: seq<Path>, wanted: Path -> bool, stampOf: Path -> FileStamp): seq<DirFile> {
    if paths == [] then []
    else
      var last := paths[|paths| - 1];
      Collected(paths[..|paths| - 1], wanted, stampOf) + (if wanted(last) then [DirFile(last, stampOf(last))] else [])
  }

  /** The listing of a tree nobody interrupts. */
  function ListingOf(root: Directory, wanted: Path -> bool, stampOf: Path -> FileStamp): Listed {
    var files := Collected(Visit(root), wanted, stampOf);
    Listed(files, if FullyRead(root) then Complete else Incomplete, |files|)
  }

  lemma {:induction false} CollectedPrefix(a: seq<Path>, b: seq<Path>, wanted: Path -> bool, stampOf: Path -> FileStamp)
    ensures a <= b ==> Collected(a, wanted, stampOf) <= Collected(b, wanted, stampOf)
  {
    if a <= b {
      if a == b {
      } else {
        assert a <= b[..|b| - 1];
        CollectedPrefix(a, b[..|b| - 1], wanted, stampOf);
      }
    }
  }

  lemma {:induction false} CollectedHolds(paths: seq<Path>, wanted: Path -> bool, stampOf: Path -> FileStamp,
                                          f: DirFile)
    ensures f in Collected(paths, wanted, stampOf) <==> f.path in paths && wanted(f.path) && f.stamp == stampOf(f.path)
  {
    if paths != [] {
      CollectedHolds(paths[..|paths| - 1], wanted, stampOf, f);
    }
  }

  /** The listings of several trees. */
  function ListingsOf(roots: seq<Directory>, wanted: Path -> bool, stampOf: Path -> FileStamp): (r: seq<Listed>)
    ensures |r| == |roots|
  {
    seq(|roots|, i requires 0 <= i < |roots| => ListingOf(roots[i], wanted, stampOf))
  }

  lemma {:induction false} JoinedHolds(listings: seq<Listed>, f: DirFile)
    ensures f in Joined(listings) <==> exists i :: 0 <= i < |listings| && f in listings[i].files
  {
    if listings != [] {
      JoinedHolds(listings[1..], f);
      if f in Joined(listings[1..]) {
        var i :| 0 <= i < |listings[1..]| && f in listings[1..][i].files;
        assert f in listings[i + 1].files;
      }
      if exists i :: 0 < i < |listings| && f in listings[i].files {
        var i :| 0 < i < |listings| && f in listings[i].files;
        assert f in listings[1..][i - 1].files;
      }
    }
  }

  ghost predicate InTrees(roots: seq<Directory>, p: Path) {
    exists i :: 0 <= i < |roots| && p in Visit(roots[i])
  }

  /** Scanning trees that nobody interrupts: the scan is completed with complete listings exactly
      if every directory entered is read in full, and it sees exactly the wanted files of the
      trees, each with its stamp. */
  lemma TreesAreListed(addOnRoots: seq<Directory>, gameRoots: seq<Directory>, isAddOn: Path -> bool,
                       isGame: Path -> bool, stampOf: Path -> FileStamp, input: Input)
    requires input.addOnListings == ListingsOf(addOnRoots, isAddOn, stampOf)
    requires input.gameListings == ListingsOf(gameRoots, isGame, stampOf)
    ensures Completed(input)
    ensures FullyListed(input) <==> ListRead(addOnRoots) && ListRead(gameRoots)
    ensures forall f :: f in Joined(input.gameListings) <==>
              f.stamp == stampOf(f.path) && isGame(f.path) && InTrees(gameRoots, f.path)
    ensures forall f :: f in Joined(input.addOnListings) <==>
              f.stamp == stampOf(f.path) && isAddOn(f.path) && InTrees(addOnRoots, f.path)
  {
    hide Visit, FullyRead, Joined;
    FullyReadListings(addOnRoots, isAddOn, stampOf);
    FullyReadListings(gameRoots, isGame, stampOf);
    forall f
      ensures f in Joined(input.gameListings) <==>
              f.stamp == stampOf(f.path) && isGame(f.path) && InTrees(gameRoots, f.path)
      ensures f in Joined(input.addOnListings) <==>
              f.stamp == stampOf(f.path) && isAddOn(f.path) && InTrees(addOnRoots, f.path)
    {
      SeesFile(gameRoots, isGame, stampOf, f);
      SeesFile(addOnRoots, isAddOn, stampOf, f);
    }
  }

  lemma FullyReadListings(roots: seq<Directory>, wanted: Path -> bool, stampOf: Path -> FileStamp)
    ensures AllRan(ListingsOf(roots, wanted, stampOf)) && NoneStopped(ListingsOf(roots, wanted, stampOf))
    ensures AllComplete(ListingsOf(roots, wanted, stampOf)) <==> ListRead(roots)
  {
    hide Visit, FullyRead, Collected;
    var ls := ListingsOf(roots, wanted, stampOf);
    assert forall i :: 0 <= i < |roots| ==> (ls[i].outcome == Complete <==> FullyRead(roots[i]));
  }

  lemma SeesFile(roots: seq<Directory>, wanted: Path -> bool, stampOf: Path -> FileStamp, f: DirFile)
    ensures f in Joined(ListingsOf(roots, wanted, stampOf)) <==>
            f.stamp == stampOf(f.path) && wanted(f.path) && InTrees(roots, f.path)
  {
    hide Visit, FullyRead, Collected, Joined;
    var ls := ListingsOf(roots, wanted, stampOf);
    JoinedHolds(ls, f);
    forall i | 0 <= i < |roots|
      ensures f in ls[i].files <==> f.path in Visit(roots[i]) && wanted(f.path) && f.stamp == stampOf(f.path)
    {
      CollectedHolds(Visit(roots[i]), wanted, stampOf, f);
    }
  }
}
