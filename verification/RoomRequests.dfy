/** What the room answers to every event, told by its lists before and after and by the packets
    it sends, without the functions that compute them. */
module RoomRequests {
  import opened Bytes
  import opened Options
  import opened RoomServer

  const NO_PREFERENCE := IPv4Address(255, 255, 255, 255)

  // ----- members, permissions and names

  /** The first member of a connection. */
  predicate IsFirst(members: seq<Member>, peer: Peer, i: nat) {
    i < |members| && members[i].peer == peer && forall j :: 0 <= j < i ==> members[j].peer != peer
  }

  /** A community moderator in a room that has them, or the host. */
  ghost predicate Moderates(s: Server, peer: Peer) {
    exists i: nat :: IsFirst(s.members, peer, i)
      && (|| (s.info.enableMods && s.members[i].user.moderator)
          || (s.info.hostUsername != [] && s.members[i].user.username == s.info.hostUsername))
  }

  predicate InNicknames(c: char) {
    'a' <= c <= 'z' || 'A' <= c <= 'Z' || '0' <= c <= '9' || c in {' ', '.', '_', '-'}
  }

  predicate Matches(nickname: Text) {
    4 <= |nickname| <= 20 && forall c :: c in nickname ==> InNicknames(c as char)
  }

  ghost predicate Named(members: seq<Member>, nickname: Text) {
    exists m :: m in members && m.nickname == nickname
  }

  ghost predicate Addressed(members: seq<Member>, ip: IPv4Address) {
    exists m :: m in members && m.fakeIp == ip
  }

  /** The list without its element at `i`. */
  predicate Without<T(==)>(list: seq<T>, i: nat, left: seq<T>) {
    && i < |list| && |left| == |list| - 1
    && (forall j :: 0 <= j < i ==> left[j] == list[j])
    && (forall j :: i < j < |list| ==> left[j - 1] == list[j])
  }

  /** The first entry equal to `text`, if there is one, is gone, and nothing else. */
  ghost predicate FirstGone(list: seq<Text>, text: Text, left: seq<Text>) {
    if text in list then exists i :: 0 <= i < |list| && list[i] == text && text !in list[..i] && Without(list, i, left)
    else left == list
  }

  /** Listed at its end, unless it is listed already. */
  predicate ListedOnce(list: seq<Text>, text: Text, longer: seq<Text>) {
    longer == if text in list then list else list + [text]
  }

  // ----- packets

  /** One packet to every member, in the order of the list. */
  predicate EachGets(effects: seq<Effect>, members: seq<Member>, m: Message) {
    |effects| == |members| && forall i :: 0 <= i < |members| ==> effects[i] == Send(members[i].peer, m)
  }

  /** Room information that shows every member with its fields, in order. */
  predicate Shows(m: Message, s: Server) {
    && m.Information? && m.info == s.info && |m.entries| == |s.members|
    && forall i :: 0 <= i < |s.members| ==>
         && m.entries[i].nickname == s.members[i].nickname
         && m.entries[i].fakeIp == s.members[i].fakeIp
         && m.entries[i].game == s.members[i].game
         && m.entries[i].username == s.members[i].user.username
         && m.entries[i].displayName == s.members[i].user.displayName
         && m.entries[i].avatarUrl == s.members[i].user.avatarUrl
  }

  predicate IsUpdate(e: Effect, s: Server) {
    e.Broadcast? && Shows(e.message, s)
  }

  /** How many members a connection has. */
  function Connections(members: seq<Member>, p: Peer): nat {
    if members == [] then 0 else (if members[0].peer == p then 1 else 0) + Connections(members[1..], p)
  }

  /** As many packets as the connection has members in the list, and nothing for the sender. */
  ghost predicate OthersGetIt(effects: seq<Effect>, members: seq<Member>, sender: Peer, m: Message) {
    && (forall e :: e in effects ==> e.Send? && e.message == m && e.peer != sender)
    && forall p :: p != sender ==>
         multiset(effects)[Send(p, m)] == Connections(members, p)
  }

  // ----- the specification functions meet these descriptions

  lemma ModeratesIs(s: Server, peer: Peer)
    ensures HasModPermission(s, peer) <==> Moderates(s, peer)
  {
    var i := FindPeer(s.members, peer);
    if i < |s.members| {
      assert IsFirst(s.members, peer, i);
    }
    forall j: nat | IsFirst(s.members, peer, j)
      ensures j == i
    {
    }
  }

  lemma MatchesIs(nickname: Text)
    ensures IsNickname(nickname) <==> Matches(nickname)
  {
    forall i | 0 <= i < |nickname|
      ensures IsNicknameChar(nickname[i]) <==> InNicknames(nickname[i] as char)
      ensures nickname[i] in nickname
    {
      CharIs(nickname[i]);
    }
  }

  lemma CharIs(c: Byte)
    ensures IsNicknameChar(c) <==> InNicknames(c as char)
  {
  }

  lemma NamedIs(members: seq<Member>, nickname: Text)
    ensures NicknameFree(members, nickname) <==> !Named(members, nickname)
    ensures FindNickname(members, nickname) < |members| <==> Named(members, nickname)
  {
    var i := FindNickname(members, nickname);
    if i < |members| {
      assert members[i] in members;
    }
    forall j | 0 <= j < |members|
      ensures members[j] in members
    {
    }
  }

  lemma AddressedIs(members: seq<Member>, ip: IPv4Address)
    ensures IpFree(members, ip) <==> !Addressed(members, ip)
  {
    forall j | 0 <= j < |members|
      ensures members[j] in members
    {
    }
  }

  lemma ErasedIs<T>(list: seq<T>, i: nat)
    requires i < |list|
    ensures Without(list, i, Erase(list, i))
  {
  }

  lemma EraseTextIs(list: seq<Text>, text: Text)
    ensures FirstGone(list, text, EraseText(list, text))
  {
    hide Without;
    var i := FindText(list, text);
    if i < |list| {
      ErasedIs(list, i);
    }
  }

  lemma UpdateIs(s: Server)
    ensures IsUpdate(Broadcast(InformationOf(s)), s)
  {
  }

  // ----- joining

  /** The reasons to turn a request down, in the order in which they are looked for. */
  ghost predicate TurnsDown(o: Outside, s: Server, e: Event, why: Refusal)
    requires e.Receive? && e.request.Join?
  {
    var r, username := e.request, o.loadUser(e.request.token).username;
    match why
    case RoomIsFull => |s.members| >= s.info.memberSlots
    case WrongPassword => r.password != s.password
    case NameCollision => !Matches(r.nickname) || Named(s.members, r.nickname)
    case IpCollision => r.preferred != NO_PREFERENCE && Addressed(s.members, r.preferred)
    case VersionMismatch => r.version != 1
    case HostBanned => (username != [] && username in s.bannedNames) || o.addressOf(e.peer) in s.bannedIps
  }

  const CHECKS: seq<Refusal> := [RoomIsFull, WrongPassword, NameCollision, IpCollision, VersionMismatch, HostBanned]

  /** Nothing turns the request down: a connection joins with what it asked for, the address it
      prefers or the drawn one, and the user its token stands for. */
  ghost predicate Joined(o: Outside, s: Server, e: Event, done: Outcome)
    requires e.Receive? && e.request.Join?
  {
    var ip := if e.request.preferred == NO_PREFERENCE then e.generated else e.request.preferred;
    var user := o.loadUser(e.request.token);
    var m := Member(e.request.nickname, GameInfo([], 0, []), ip, user, e.peer);
    var n := |s.members|;
    && done.server == s.(members := s.members + [m])
    && |done.effects| == n + 2
    && EachGets(done.effects[..n], s.members, Status(MemberJoin, e.request.nickname, user.username))
    && IsUpdate(done.effects[n], done.server)
    && done.effects[n + 1] == Send(e.peer, JoinSuccess(ip, Moderates(done.server, e.peer)))
  }

  lemma RefusalIs(o: Outside, s: Server, e: Event)
    requires e.Receive? && e.request.Join?
    ensures var why := JoinRefusal(o, s, e.peer, e.request);
            if why.None? then forall w :: !TurnsDown(o, s, e, w)
            else exists k :: 0 <= k < |CHECKS| && why.value == CHECKS[k] && TurnsDown(o, s, e, CHECKS[k])
                   && forall j :: 0 <= j < k ==> !TurnsDown(o, s, e, CHECKS[j])
  {
    MatchesIs(e.request.nickname);
    NamedIs(s.members, e.request.nickname);
    AddressedIs(s.members, e.request.preferred);
    hide IsNickname, Matches, NicknameFree, Named, IpFree, Addressed;
    var why := JoinRefusal(o, s, e.peer, e.request);
    if why.Some? {
      var k := PositionOf(why.value);
      assert TurnsDown(o, s, e, CHECKS[k]);
      forall j | 0 <= j < k
        ensures !TurnsDown(o, s, e, CHECKS[j])
      {
      }
    }
  }

  function PositionOf(why: Refusal): (k: nat)
    ensures k < 6 && CHECKS[k] == why
  {
    match why
    case RoomIsFull => 0
    case WrongPassword => 1
    case NameCollision => 2
    case IpCollision => 3
    case VersionMismatch => 4
    case HostBanned => 5
  }

  /** A request to join adds exactly the member it asks for if nothing turns it down; otherwise
      the server is unchanged, and the sender alone is told the first reason. */
  lemma JoinIsDecided(o: Outside, s: Server, e: Event)
    requires e.Receive? && e.request.Join?
    ensures var done := Handle(o, s, e);
            if forall w :: !TurnsDown(o, s, e, w) then Joined(o, s, e, done)
            else
              && done.server == s
              && exists k :: 0 <= k < |CHECKS| && done.effects == [Send(e.peer, Refused(CHECKS[k]))]
                   && TurnsDown(o, s, e, CHECKS[k]) && forall j :: 0 <= j < k ==> !TurnsDown(o, s, e, CHECKS[j])
  {
    RefusalIs(o, s, e);
    hide TurnsDown, JoinRefusal, InformationOf, HasModPermission, Moderates, Shows;
    if JoinRefusal(o, s, e.peer, e.request).None? {
      JoinedIs(o, s, e);
    }
  }

  lemma JoinedIs(o: Outside, s: Server, e: Event)
    requires e.Receive? && e.request.Join? && JoinRefusal(o, s, e.peer, e.request).None?
    ensures Joined(o, s, e, Handle(o, s, e))
  {
    hide JoinRefusal, InformationOf, HasModPermission, Moderates, Shows;
    var done := Handle(o, s, e);
    UpdateIs(done.server);
    ModeratesIs(done.server, e.peer);
  }

  // ----- moderation

  /** The member at `i` is told and disconnected, and the others are told who left and how. */
  predicate Expelled(s: Server, i: nat, notice: Message, kind: StatusType, done: Outcome) {
    && i < |s.members| && Without(s.members, i, done.server.members) && done.server.info == s.info
    && var m, left := s.members[i], done.server.members;
    && |done.effects| == |left| + 3
    && done.effects[0] == Send(m.peer, notice) && done.effects[1] == Disconnect(m.peer)
    && EachGets(done.effects[2..|left| + 2], left, Status(kind, m.nickname, m.user.username))
    && IsUpdate(done.effects[|left| + 2], done.server)
  }

  predicate OnlyAnswered(s: Server, peer: Peer, m: Message, done: Outcome) {
    done == Outcome(s, [Send(peer, m)])
  }

  lemma ExpelIs(s: Server, i: nat, notice: Message, kind: StatusType)
    requires i < |s.members|
    ensures Expelled(s, i, notice, kind, Expel(s, i, notice, kind))
  {
    hide InformationOf, Shows, Without, Erase;
    ErasedIs(s.members, i);
    UpdateIs(Expel(s, i, notice, kind).server);
  }

  /** The first member of a nickname. */
  predicate IsNamed(members: seq<Member>, nickname: Text, i: nat) {
    i < |members| && members[i].nickname == nickname && forall j :: 0 <= j < i ==> members[j].nickname != nickname
  }

  /** A moderator's request to kick takes out exactly the member of that name. */
  lemma KickIsDone(o: Outside, s: Server, e: Event)
    requires e.Receive? && e.request.Kick?
    ensures var done := Handle(o, s, e);
            if !Moderates(s, e.peer) then OnlyAnswered(s, e.peer, PermissionDenied, done)
            else if !Named(s.members, e.request.nickname) then OnlyAnswered(s, e.peer, NoSuchUser, done)
            else
              exists i :: IsNamed(s.members, e.request.nickname, i) && Expelled(s, i, HostKicked, MemberKicked, done)
                && done.server == s.(members := done.server.members)
  {
    hide HasModPermission, Moderates, Named, Expelled;
    ModeratesIs(s, e.peer);
    NamedIs(s.members, e.request.nickname);
    var i := FindNickname(s.members, e.request.nickname);
    if i < |s.members| {
      ExpelIs(s, i, HostKicked, MemberKicked);
      assert IsNamed(s.members, e.request.nickname, i);
    }
  }

  /** A ban does the same, and lists the name, if there is one, and the address once. */
  lemma BanIsDone(o: Outside, s: Server, e: Event)
    requires e.Receive? && e.request.Ban?
    ensures var done := Handle(o, s, e);
            if !Moderates(s, e.peer) then OnlyAnswered(s, e.peer, PermissionDenied, done)
            else if !Named(s.members, e.request.nickname) then OnlyAnswered(s, e.peer, NoSuchUser, done)
            else
              exists i :: IsNamed(s.members, e.request.nickname, i) && Banishes(o, s, i, done)
  {
    hide HasModPermission, Moderates, Named, Banishes;
    ModeratesIs(s, e.peer);
    NamedIs(s.members, e.request.nickname);
    var i := FindNickname(s.members, e.request.nickname);
    if HasModPermission(s, e.peer) && i < |s.members| {
      BanishIs(o, s, e);
      assert IsNamed(s.members, e.request.nickname, i);
    }
  }

  predicate Banishes(o: Outside, s: Server, i: nat, done: Outcome) {
    && Expelled(s, i, Refused(HostBanned), MemberBanned, done)
    && done.server.password == s.password
    && var m := s.members[i];
    && (if m.user.username == [] then done.server.bannedNames == s.bannedNames
        else ListedOnce(s.bannedNames, m.user.username, done.server.bannedNames))
    && ListedOnce(s.bannedIps, o.addressOf(m.peer), done.server.bannedIps)
  }

  lemma BanishIs(o: Outside, s: Server, e: Event)
    requires e.Receive? && e.request.Ban? && HasModPermission(s, e.peer)
    requires FindNickname(s.members, e.request.nickname) < |s.members|
    ensures Banishes(o, s, FindNickname(s.members, e.request.nickname), Handle(o, s, e))
  {
    hide HasModPermission, InformationOf, Without, Erase;
    ExpelIs(s, FindNickname(s.members, e.request.nickname), Refused(HostBanned), MemberBanned);
  }

  /** Lifting a ban takes the first entry out of each list and tells every member. */
  lemma UnbanIsDone(o: Outside, s: Server, e: Event)
    requires e.Receive? && e.request.Unban?
    ensures var done, address := Handle(o, s, e), e.request.address;
            if !Moderates(s, e.peer) then OnlyAnswered(s, e.peer, PermissionDenied, done)
            else if address !in s.bannedNames && address !in s.bannedIps then
              OnlyAnswered(s, e.peer, NoSuchUser, done)
            else
              && FirstGone(s.bannedNames, address, done.server.bannedNames)
              && FirstGone(s.bannedIps, address, done.server.bannedIps)
              && done.server ==
                 s.(bannedNames := done.server.bannedNames, bannedIps := done.server.bannedIps)
              && EachGets(done.effects, s.members, Status(AddressUnbanned, address, []))
  {
    hide HasModPermission, Moderates, FirstGone, EraseText;
    ModeratesIs(s, e.peer);
    EraseTextIs(s.bannedNames, e.request.address);
    EraseTextIs(s.bannedIps, e.request.address);
  }

  /** The ban lists are for moderators. */
  lemma BanListIsSent(o: Outside, s: Server, e: Event)
    requires e.Receive? && e.request.GetBanList?
    ensures OnlyAnswered(s, e.peer,
              if Moderates(s, e.peer) then BanList(s.bannedNames, s.bannedIps) else PermissionDenied, Handle(o, s, e))
  {
    hide HasModPermission, Moderates;
    ModeratesIs(s, e.peer);
  }

  // ----- everything else

  /** Only the game of the sender's first member changes, and everyone is informed. */
  lemma GameIsSet(o: Outside, s: Server, e: Event)
    requires e.Receive? && e.request.SetGameInfo?
    ensures var done := Handle(o, s, e);
            && done.server == s.(members := done.server.members) && |done.server.members| == |s.members|
            && (forall i :: 0 <= i < |s.members| ==>
                  done.server.members[i] == if IsFirst(s.members, e.peer, i) then s.members[i].(game := e.request.game)
                                            else s.members[i])
            && |done.effects| == 1 && IsUpdate(done.effects[0], done.server)
  {
    hide InformationOf, Shows;
    UpdateIs(Handle(o, s, e).server);
  }

  lemma {:induction false} OthersGetItIs(members: seq<Member>, sender: Peer, m: Message)
    ensures OthersGetIt(ToOthers(members, sender, m), members, sender, m)
  {
    hide OthersGetIt;
    if members == [] {
      NobodyGetsIt(sender, m);
    } else {
      OthersGetItIs(members[1..], sender, m);
      OneMoreGetsIt(ToOthers(members[1..], sender, m), members, sender, m);
    }
  }

  lemma NobodyGetsIt(sender: Peer, m: Message)
    ensures OthersGetIt([], [], sender, m)
  {
  }

  lemma OneMoreGetsIt(effects: seq<Effect>, members: seq<Member>, sender: Peer, m: Message)
    requires members != [] && OthersGetIt(effects, members[1..], sender, m)
    ensures var first := members[0].peer;
            OthersGetIt((if first == sender then [] else [Send(first, m)]) + effects, members, sender, m)
  {
    var told := if members[0].peer == sender then [] else [Send(members[0].peer, m)];
    assert multiset(told + effects) == multiset(told) + multiset(effects);
  }

  /** A chat message goes out in the name of the sender's first member, cut to 500 bytes. */
  lemma ChatIsSent(o: Outside, s: Server, e: Event)
    requires e.Receive? && e.request.Chat?
    ensures var done := Handle(o, s, e);
            && done.server == s
            && ((forall m :: m in s.members ==> m.peer != e.peer) ==> done.effects == [])
            && forall i: nat :: IsFirst(s.members, e.peer, i) ==>
                 exists text :: Shortened(e.request.text, text) && OthersGetIt(done.effects, s.members, e.peer,
                   ChatMessage(s.members[i].nickname, s.members[i].user.username, text))
  {
    hide ToOthers, OthersGetIt, Shortened, FindPeer;
    forall i: nat | IsFirst(s.members, e.peer, i)
      ensures exists text :: Shortened(e.request.text, text) && OthersGetIt(Handle(o, s, e).effects, s.members, e.peer,
        ChatMessage(s.members[i].nickname, s.members[i].user.username, text))
    {
      ChatOf(o, s, e, i);
    }
  }

  lemma ChatOf(o: Outside, s: Server, e: Event, i: nat)
    requires e.Receive? && e.request.Chat? && IsFirst(s.members, e.peer, i)
    ensures exists text :: Shortened(e.request.text, text) && OthersGetIt(Handle(o, s, e).effects, s.members, e.peer,
              ChatMessage(s.members[i].nickname, s.members[i].user.username, text))
  {
    hide ToOthers, OthersGetIt, Shortened, FindPeer;
    var t := e.request.text;
    var cut := if |t| <= MAX_MESSAGE_SIZE then t else t[..MAX_MESSAGE_SIZE];
    assert FindPeer(s.members, e.peer) == i;
    ShortenedIs(t);
    OthersGetItIs(s.members, e.peer, ChatMessage(s.members[i].nickname, s.members[i].user.username, cut));
  }

  /** As much of the text as fits. */
  predicate Shortened(text: Text, cut: Text) {
    cut <= text && |cut| == if |text| < 500 then |text| else 500
  }

  lemma ShortenedIs(text: Text)
    ensures Shortened(text, if |text| <= MAX_MESSAGE_SIZE then text else text[..MAX_MESSAGE_SIZE])
  {
  }

  /** A broadcast goes to everyone but the sender, any other packet to the first member of the
      address, unchanged. */
  lemma RelayIsSent(o: Outside, s: Server, e: Event)
    requires e.Receive? && e.request.Relay?
    ensures var done, r := Handle(o, s, e), e.request;
            && done.server == s
            && (r.broadcast ==> OthersGetIt(done.effects, s.members, e.peer, Relayed(r.packet)))
            && (!r.broadcast && !Addressed(s.members, r.remote) ==> done.effects == [])
            && (!r.broadcast && Addressed(s.members, r.remote) ==>
                  exists i :: 0 <= i < |s.members| && s.members[i].fakeIp == r.remote
                    && (forall j :: 0 <= j < i ==> s.members[j].fakeIp != r.remote)
                    && done.effects == [Send(s.members[i].peer, Relayed(r.packet))])
  {
    hide ToOthers, OthersGetIt;
    OthersGetItIs(s.members, e.peer, Relayed(e.request.packet));
    var i := FindIp(s.members, e.request.remote);
    if i < |s.members| {
      assert s.members[i] in s.members;
    }
  }

  /** The first member of a connection that has ended leaves; the others are told who did,
      unless the nickname is empty. */
  lemma DisconnectionIsHandled(o: Outside, s: Server, e: Event)
    requires e.Disconnected?
    ensures var done := Handle(o, s, e);
            && ((forall m :: m in s.members ==> m.peer != e.peer) ==>
                  && done.server == s && |done.effects| == 2 && done.effects[0] == Disconnect(e.peer)
                  && IsUpdate(done.effects[1], s))
            && forall i: nat :: IsFirst(s.members, e.peer, i) ==> Left(s, i, done)
  {
    hide Left, InformationOf, Shows, FindPeer, Handle;
    var i := FindPeer(s.members, e.peer);
    if i < |s.members| {
      assert s.members[i] in s.members;
      LeftIs(o, s, e);
    } else {
      NobodyLeaves(o, s, e);
    }
  }

  lemma NobodyLeaves(o: Outside, s: Server, e: Event)
    requires e.Disconnected? && FindPeer(s.members, e.peer) == |s.members|
    ensures var done := Handle(o, s, e);
            && done.server == s && |done.effects| == 2 && done.effects[0] == Disconnect(e.peer)
            && IsUpdate(done.effects[1], s)
  {
    hide InformationOf, Shows, FindPeer;
    UpdateIs(s);
  }

  predicate Left(s: Server, i: nat, done: Outcome) {
    && i < |s.members| && Without(s.members, i, done.server.members)
    && done.server == s.(members := done.server.members)
    && var m, left := s.members[i], done.server.members;
    && var told := if m.nickname == [] then 0 else |left|;
    && |done.effects| == told + 2 && done.effects[0] == Disconnect(m.peer)
    && (m.nickname != [] ==>
          EachGets(done.effects[1..told + 1], left, Status(MemberLeave, m.nickname, m.user.username)))
    && IsUpdate(done.effects[told + 1], done.server)
  }

  lemma LeftIs(o: Outside, s: Server, e: Event)
    requires e.Disconnected? && FindPeer(s.members, e.peer) < |s.members|
    ensures Left(s, FindPeer(s.members, e.peer), Handle(o, s, e))
  {
    hide InformationOf, Shows, Without, Erase;
    ErasedIs(s.members, FindPeer(s.members, e.peer));
    UpdateIs(Handle(o, s, e).server);
  }

  /** Closing tells every member, and then ends every connection. */
  lemma CloseIsTold(o: Outside, s: Server)
    ensures var done, n := Handle(o, s, Close), |s.members|;
            && done.server == s && |done.effects| == 2 * n && EachGets(done.effects[..n], s.members, CloseRoom)
            && forall i :: 0 <= i < n ==> done.effects[n + i] == Disconnect(s.members[i].peer)
  {
  }
}
