/** What the multiplayer room's server does with each event (src/network/room.cpp): the new
    lists and the packets and disconnections it asks the network for, in order. */
module RoomServer {
  import opened Bytes
  import opened Options

  type Text = Bytes
  type Peer = nat

  datatype IPv4Address = IPv4Address(a: Byte, b: Byte, c: Byte, d: Byte)

  const NO_PREFERRED_IP := IPv4Address(0xFF, 0xFF, 0xFF, 0xFF)
  const NETWORK_VERSION := 1
  const MAX_MESSAGE_SIZE := 500

  datatype GameInfo = GameInfo(name: Text, id: nat, version: Text)
  datatype UserData = UserData(username: Text, displayName: Text, avatarUrl: Text, moderator: bool)
  datatype Member = Member(nickname: Text, game: GameInfo, fakeIp: IPv4Address, user: UserData, peer: Peer)

  datatype RoomInfo = RoomInfo(
    name: Text, description: Text, memberSlots: nat, port: nat, preferredGame: Text, hostUsername: Text,
    enableMods: bool)

  datatype Server = Server(
    info: RoomInfo, password: Text, members: seq<Member>, bannedNames: seq<Text>, bannedIps: seq<Text>)

  /** The verification backend and the addresses of the peers. */
  datatype Outside = Outside(loadUser: Text -> UserData, addressOf: Peer -> Text)

  /** What room information says about a member. */
  datatype Entry = Entry(
    nickname: Text, fakeIp: IPv4Address, game: GameInfo, username: Text, displayName: Text, avatarUrl: Text)

  datatype Refusal = RoomIsFull | WrongPassword | NameCollision | IpCollision | VersionMismatch | HostBanned
  datatype StatusType = MemberJoin | MemberLeave | MemberKicked | MemberBanned | AddressUnbanned

  datatype Message =
    | Information(info: RoomInfo, entries: seq<Entry>)
    | JoinSuccess(ip: IPv4Address, asMod: bool)
    | Refused(why: Refusal)
    | HostKicked
    | CloseRoom
    | Status(kind: StatusType, nickname: Text, username: Text)
    | PermissionDenied
    | NoSuchUser
    | BanList(names: seq<Text>, ips: seq<Text>)
    | ChatMessage(nickname: Text, username: Text, text: Text)
    | Relayed(packet: Bytes)

  datatype Effect = Send(peer: Peer, message: Message) | Broadcast(message: Message) | Disconnect(peer: Peer)

  datatype Request =
    | Join(nickname: Text, preferred: IPv4Address, version: nat, password: Text, token: Text)
    | Kick(nickname: Text)
    | Ban(nickname: Text)
    | Unban(address: Text)
    | GetBanList
    | SetGameInfo(game: GameInfo)
    | Chat(text: Text)
    | Relay(packet: Bytes, remote: IPv4Address, broadcast: bool)

  /** `generated` is the address the random generator settles on, should it be asked. */
  datatype Event =
    | Receive(peer: Peer, request: Request, generated: IPv4Address)
    | Disconnected(peer: Peer)
    | Close

  datatype Outcome = Outcome(server: Server, effects: seq<Effect>)

  // ----- looking members up

  /** The index `std::find_if` returns; the length of the list if there is none. */
  function FindNickname(members: seq<Member>, nickname: Text): (i: nat)
    ensures i <= |members|
    ensures i < |members| ==> members[i].nickname == nickname
    ensures forall j :: 0 <= j < i ==> members[j].nickname != nickname
  {
    if members == [] || members[0].nickname == nickname then 0
    else 1 + FindNickname(members[1..], nickname)
  }

  function FindPeer(members: seq<Member>, peer: Peer): (i: nat)
    ensures i <= |members|
    ensures i < |members| ==> members[i].peer == peer
    ensures forall j :: 0 <= j < i ==> members[j].peer != peer
  {
    if members == [] || members[0].peer == peer then 0
    else 1 + FindPeer(members[1..], peer)
  }

  function FindIp(members: seq<Member>, ip: IPv4Address): (i: nat)
    ensures i <= |members|
    ensures i < |members| ==> members[i].fakeIp == ip
    ensures forall j :: 0 <= j < i ==> members[j].fakeIp != ip
  {
    if members == [] || members[0].fakeIp == ip then 0
    else 1 + FindIp(members[1..], ip)
  }

  function FindText(list: seq<Text>, text: Text): (i: nat)
    ensures i <= |list|
    ensures i < |list| ==> list[i] == text
    ensures forall j :: 0 <= j < i ==> list[j] != text
  {
    if list == [] || list[0] == text then 0 else 1 + FindText(list[1..], text)
  }

  function Erase<T>(list: seq<T>, i: nat): (r: seq<T>)
    requires i < |list|
    ensures |r| == |list| - 1
    ensures forall j :: 0 <= j < |r| ==> r[j] == list[if j < i then j else j + 1]
  {
    list[..i] + list[i + 1..]
  }

  function EraseText(list: seq<Text>, text: Text): seq<Text> {
    if FindText(list, text) < |list| then Erase(list, FindText(list, text)) else list
  }

  function AddText(list: seq<Text>, text: Text): seq<Text> {
    if text in list then list else list + [text]
  }

  // ----- permissions and names

  predicate HasModPermission(s: Server, peer: Peer) {
    var i := FindPeer(s.members, peer);
    && i < |s.members|
    && (|| (s.info.enableMods && s.members[i].user.moderator)
        || (s.info.hostUsername != [] && s.members[i].user.username == s.info.hostUsername))
  }

  predicate IsNicknameChar(c: Byte) {
    || c == 0x20 || 0x61 <= c <= 0x7A || 0x41 <= c <= 0x5A || 0x30 <= c <= 0x39
    || c == 0x2E || c == 0x5F || c == 0x2D
  }

  predicate IsNickname(nickname: Text) {
    4 <= |nickname| <= 20 && forall i :: 0 <= i < |nickname| ==> IsNicknameChar(nickname[i])
  }

  predicate NicknameFree(members: seq<Member>, nickname: Text) {
    forall i :: 0 <= i < |members| ==> members[i].nickname != nickname
  }

  predicate IpFree(members: seq<Member>, ip: IPv4Address) {
    forall i :: 0 <= i < |members| ==> members[i].fakeIp != ip
  }

  /** An address the generator can draw: 192.168 and two bytes from 1 to 254. */
  predicate Drawable(ip: IPv4Address) {
    ip.a == 192 && ip.b == 168 && 1 <= ip.c <= 0xFE && 1 <= ip.d <= 0xFE
  }

  // ----- packets to several peers

  function ToAll(members: seq<Member>, m: Message): (r: seq<Effect>)
    ensures |r| == |members|
  {
    seq(|members|, i requires 0 <= i < |members| => Send(members[i].peer, m))
  }

  /** Everyone but the sender, in the order of the list. */
  function ToOthers(members: seq<Member>, sender: Peer, m: Message): seq<Effect> {
    if members == [] then []
    else (if members[0].peer == sender then [] else [Send(members[0].peer, m)]) + ToOthers(members[1..], sender, m)
  }

  function EntryOf(m: Member): Entry {
    Entry(m.nickname, m.fakeIp, m.game, m.user.username, m.user.displayName, m.user.avatarUrl)
  }

  function EntriesOf(members: seq<Member>): (r: seq<Entry>)
    ensures |r| == |members|
  {
    seq(|members|, i requires 0 <= i < |members| => EntryOf(members[i]))
  }

  function InformationOf(s: Server): Message {
    Information(s.info, EntriesOf(s.members))
  }

  // ----- the handlers

  /** The checks of `HandleJoinRequest`, in their order. */
  function JoinRefusal(o: Outside, s: Server, peer: Peer, r: Request): (why: Option<Refusal>)
    requires r.Join?
  {
    var username := o.loadUser(r.token).username;
    if |s.members| >= s.info.memberSlots then Some(RoomIsFull)
    else if r.password != s.password then Some(WrongPassword)
    else if !(IsNickname(r.nickname) && NicknameFree(s.members, r.nickname)) then Some(NameCollision)
    else if r.preferred != NO_PREFERRED_IP && !IpFree(s.members, r.preferred) then Some(IpCollision)
    else if r.version != NETWORK_VERSION then Some(VersionMismatch)
    else if username != [] && username in s.bannedNames then Some(HostBanned)
    else if o.addressOf(peer) in s.bannedIps then Some(HostBanned)
    else None
  }

  function NewMember(o: Outside, peer: Peer, r: Request, generated: IPv4Address): Member
    requires r.Join?
  {
    Member(r.nickname, GameInfo([], 0, []), if r.preferred != NO_PREFERRED_IP then r.preferred else generated,
           o.loadUser(r.token), peer)
  }

  function HandleJoin(o: Outside, s: Server, peer: Peer, r: Request, generated: IPv4Address): Outcome
    requires r.Join?
  {
    var why := JoinRefusal(o, s, peer, r);
    if why.Some? then Outcome(s, [Send(peer, Refused(why.value))])
    else
      var m := NewMember(o, peer, r, generated);
      var s' := s.(members := s.members + [m]);
      Outcome(s', ToAll(s.members, Status(MemberJoin, m.nickname, m.user.username))
                  + [Broadcast(InformationOf(s')), Send(peer, JoinSuccess(m.fakeIp, HasModPermission(s', peer)))])
  }

  /** Removing a member on a moderator's request, for `HandleModKickPacket` and
      `HandleModBanPacket`. */
  function Expel(s: Server, target: nat, notice: Message, kind: StatusType): Outcome
    requires target < |s.members|
  {
    var m := s.members[target];
    var s' := s.(members := Erase(s.members, target));
    Outcome(s', [Send(m.peer, notice), Disconnect(m.peer)]
                + ToAll(s'.members, Status(kind, m.nickname, m.user.username)) + [Broadcast(InformationOf(s'))])
  }

  function HandleKick(s: Server, peer: Peer, nickname: Text): Outcome {
    var target := FindNickname(s.members, nickname);
    if !HasModPermission(s, peer) then Outcome(s, [Send(peer, PermissionDenied)])
    else if target == |s.members| then Outcome(s, [Send(peer, NoSuchUser)])
    else Expel(s, target, HostKicked, MemberKicked)
  }

  function HandleBan(o: Outside, s: Server, peer: Peer, nickname: Text): Outcome {
    var target := FindNickname(s.members, nickname);
    if !HasModPermission(s, peer) then Outcome(s, [Send(peer, PermissionDenied)])
    else if target == |s.members| then Outcome(s, [Send(peer, NoSuchUser)])
    else
      var m := s.members[target];
      var names := if m.user.username == [] then s.bannedNames else AddText(s.bannedNames, m.user.username);
      var expelled := Expel(s, target, Refused(HostBanned), MemberBanned);
      expelled.(server := expelled.server.(bannedNames := names,
        bannedIps := AddText(s.bannedIps, o.addressOf(m.peer))))
  }

  function HandleUnban(s: Server, peer: Peer, address: Text): Outcome {
    if !HasModPermission(s, peer) then Outcome(s, [Send(peer, PermissionDenied)])
    else if address in s.bannedNames || address in s.bannedIps then
      Outcome(s.(bannedNames := EraseText(s.bannedNames, address), bannedIps := EraseText(s.bannedIps, address)),
              ToAll(s.members, Status(AddressUnbanned, address, [])))
    else Outcome(s, [Send(peer, NoSuchUser)])
  }

  function HandleGetBanList(s: Server, peer: Peer): Outcome {
    Outcome(s,
      [Send(peer, if HasModPermission(s, peer) then BanList(s.bannedNames, s.bannedIps) else PermissionDenied)])
  }

  function HandleGameInfo(s: Server, peer: Peer, game: GameInfo): Outcome {
    var i := FindPeer(s.members, peer);
    var s' := if i == |s.members| then s else s.(members := s.members[i := s.members[i].(game := game)]);
    Outcome(s', [Broadcast(InformationOf(s'))])
  }

  function HandleChat(s: Server, peer: Peer, text: Text): Outcome {
    var i := FindPeer(s.members, peer);
    if i == |s.members| then Outcome(s, [])
    else
      var cut := if |text| <= MAX_MESSAGE_SIZE then text else text[..MAX_MESSAGE_SIZE];
      Outcome(s, ToOthers(s.members, peer, ChatMessage(s.members[i].nickname, s.members[i].user.username, cut)))
  }

  /** `HandleProxyPacket` and `HandleLdnPacket`. */
  function HandleRelay(s: Server, peer: Peer, packet: Bytes, remote: IPv4Address, broadcast: bool): Outcome {
    var i := FindIp(s.members, remote);
    if broadcast then Outcome(s, ToOthers(s.members, peer, Relayed(packet)))
    else if i < |s.members| then Outcome(s, [Send(s.members[i].peer, Relayed(packet))])
    else Outcome(s, [])
  }

  function HandleDisconnected(s: Server, peer: Peer): Outcome {
    var i := FindPeer(s.members, peer);
    if i == |s.members| then Outcome(s, [Disconnect(peer), Broadcast(InformationOf(s))])
    else
      var m := s.members[i];
      var s' := s.(members := Erase(s.members, i));
      Outcome(s', [Disconnect(peer)]
                  + (if m.nickname == [] then []
                    else ToAll(s'.members, Status(MemberLeave, m.nickname, m.user.username)))
                  + [Broadcast(InformationOf(s'))])
  }

  /** `SendCloseMessage`, when the loop ends. */
  function HandleClose(s: Server): Outcome {
    Outcome(s, ToAll(s.members, CloseRoom) + DisconnectAll(s.members))
  }

  function DisconnectAll(members: seq<Member>): (r: seq<Effect>)
    ensures |r| == |members|
  {
    seq(|members|, i requires 0 <= i < |members| => Disconnect(members[i].peer))
  }

  function HandleRequest(o: Outside, s: Server, peer: Peer, r: Request, generated: IPv4Address): Outcome {
    match r
    case Join(_, _, _, _, _) => HandleJoin(o, s, peer, r, generated)
    case Kick(nickname) => HandleKick(s, peer, nickname)
    case Ban(nickname) => HandleBan(o, s, peer, nickname)
    case Unban(address) => HandleUnban(s, peer, address)
    case GetBanList => HandleGetBanList(s, peer)
    case SetGameInfo(game) => HandleGameInfo(s, peer, game)
    case Chat(text) => HandleChat(s, peer, text)
    case Relay(packet, remote, broadcast) => HandleRelay(s, peer, packet, remote, broadcast)
  }

  /** One pass of `ServerLoop`. */
  function Handle(o: Outside, s: Server, e: Event): Outcome {
    match e
    case Receive(peer, request, generated) => HandleRequest(o, s, peer, request, generated)
    case Disconnected(peer) => HandleDisconnected(s, peer)
    case Close => HandleClose(s)
  }

  // ----- what every event keeps

  predicate DistinctNames(members: seq<Member>) {
    forall i, j :: 0 <= i < j < |members| ==> members[i].nickname != members[j].nickname
  }

  predicate DistinctIps(members: seq<Member>) {
    forall i, j :: 0 <= i < j < |members| ==> members[i].fakeIp != members[j].fakeIp
  }

  /** Room for everyone, no two members of one name or address, and every name and address one
      that may be given. */
  predicate Orderly(s: Server) {
    && |s.members| <= s.info.memberSlots
    && DistinctNames(s.members)
    && DistinctIps(s.members)
    && forall i :: 0 <= i < |s.members| ==> IsNickname(s.members[i].nickname) && s.members[i].fakeIp != NO_PREFERRED_IP
  }

  /** The generator, if it is asked, returns an address nobody has. */
  predicate GeneratorKept(s: Server, e: Event) {
    e.Receive? && e.request.Join? ==> Generated(s, e.request, e.generated)
  }

  predicate Generated(s: Server, r: Request, generated: IPv4Address)
    requires r.Join?
  {
    r.preferred == NO_PREFERRED_IP && |s.members| < s.info.memberSlots ==>
      Drawable(generated) && IpFree(s.members, generated)
  }

  lemma ErasedIsOrderly(s: Server, i: nat)
    requires Orderly(s) && i < |s.members|
    ensures Orderly(s.(members := Erase(s.members, i)))
  {
    hide IsNickname;
    var r := Erase(s.members, i);
    forall j, k | 0 <= j < k < |r|
      ensures r[j].nickname != r[k].nickname && r[j].fakeIp != r[k].fakeIp
    {
      assert r[j] == s.members[if j < i then j else j + 1];
      assert r[k] == s.members[if k < i then k else k + 1];
    }
  }

  lemma JoinedIsOrderly(o: Outside, s: Server, peer: Peer, r: Request, generated: IPv4Address)
    requires Orderly(s) && r.Join? && JoinRefusal(o, s, peer, r).None?
    requires Generated(s, r, generated)
    ensures Orderly(s.(members := s.members + [NewMember(o, peer, r, generated)]))
  {
    hide IsNickname;
  }

  /** At most `member_slots` members, distinct nicknames and fake addresses, and nobody on the
      address that means no preference: whatever event comes. */
  lemma StaysOrderly(o: Outside, s: Server, e: Event)
    requires Orderly(s) && GeneratorKept(s, e)
    ensures Orderly(Handle(o, s, e).server) && Handle(o, s, e).server.info == s.info
  {
    hide Orderly, IsNickname, Erase, ToAll, ToOthers, InformationOf, HasModPermission, AddText, EraseText;
    match e
    case Disconnected(peer) =>
      if FindPeer(s.members, peer) < |s.members| {
        ErasedIsOrderly(s, FindPeer(s.members, peer));
      }
    case Close =>
    case Receive(peer, r, generated) =>
      if r.Join? {
        if JoinRefusal(o, s, peer, r).None? {
          JoinedIsOrderly(o, s, peer, r, generated);
        }
      } else {
        OtherRequestsStayOrderly(o, s, peer, r, generated);
      }
  }

  lemma SameListsAreOrderly(s: Server, s': Server)
    requires Orderly(s) && s'.members == s.members && s'.info == s.info
    ensures Orderly(s')
  {
  }

  lemma GameInfoIsOrderly(s: Server, i: nat, game: GameInfo)
    requires Orderly(s) && i < |s.members|
    ensures Orderly(s.(members := s.members[i := s.members[i].(game := game)]))
  {
    hide IsNickname;
  }

  lemma OtherRequestsStayOrderly(o: Outside, s: Server, peer: Peer, r: Request, generated: IPv4Address)
    requires Orderly(s) && !r.Join?
    ensures Orderly(HandleRequest(o, s, peer, r, generated).server)
    ensures HandleRequest(o, s, peer, r, generated).server.info == s.info
  {
    hide Orderly, IsNickname, Erase, ToAll, ToOthers, InformationOf, HasModPermission, AddText, EraseText;
    var s' := HandleRequest(o, s, peer, r, generated).server;
    match r
    case Kick(nickname) =>
      if FindNickname(s.members, nickname) < |s.members| {
        ErasedIsOrderly(s, FindNickname(s.members, nickname));
      }
    case Ban(nickname) =>
      var target := FindNickname(s.members, nickname);
      if target < |s.members| {
        ErasedIsOrderly(s, target);
        if s' != s {
          SameListsAreOrderly(s.(members := Erase(s.members, target)), s');
        }
      }
    case Unban(address) => SameListsAreOrderly(s, s');
    case SetGameInfo(game) =>
      if FindPeer(s.members, peer) < |s.members| {
        GameInfoIsOrderly(s, FindPeer(s.members, peer), game);
      }
    case _ =>
  }

  // ----- bans

  predicate Banned(o: Outside, s: Server, m: Member) {
    (m.user.username != [] && m.user.username in s.bannedNames) || o.addressOf(m.peer) in s.bannedIps
  }

  /** The list of members only grows by a join of someone who is not banned, and then by that
      member alone, at its end. */
  lemma NobodyJoinsBanned(o: Outside, s: Server, e: Event)
    requires |Handle(o, s, e).server.members| > |s.members|
    ensures e.Receive? && e.request.Join?
    ensures var m := NewMember(o, e.peer, e.request, e.generated);
            !Banned(o, s, m) && Handle(o, s, e).server == s.(members := s.members + [m])
  {
    hide IsNickname, ToAll, ToOthers, InformationOf, HasModPermission, AddText, EraseText, IpFree, NicknameFree;
  }

  /** The ban lists change only for a sender with the permission to moderate. */
  lemma BansNeedPermission(o: Outside, s: Server, e: Event)
    requires var s' := Handle(o, s, e).server; s'.bannedNames != s.bannedNames || s'.bannedIps != s.bannedIps
    ensures e.Receive? && (e.request.Ban? || e.request.Unban?) && HasModPermission(s, e.peer)
  {
    hide IsNickname, ToAll, ToOthers, InformationOf, HasModPermission, AddText, EraseText, Erase, JoinRefusal;
  }

  /** A ban takes effect: the target is out and banned, and the next request to join from its
      connection is refused. */
  lemma BanHolds(o: Outside, s: Server, peer: Peer, nickname: Text)
    requires HasModPermission(s, peer) && FindNickname(s.members, nickname) < |s.members|
    ensures var m := s.members[FindNickname(s.members, nickname)];
            var s' := HandleBan(o, s, peer, nickname).server;
            && Banned(o, s', m)
            && s'.members == Erase(s.members, FindNickname(s.members, nickname))
            && forall r: Request :: r.Join? ==> JoinRefusal(o, s', m.peer, r).Some?
  {
    hide IsNickname, ToAll, InformationOf, HasModPermission, Erase, IpFree, NicknameFree;
  }

  lemma ErasedOnce(list: seq<Text>, text: Text)
    ensures text !in EraseText(list, text) <==> multiset(list)[text] <= 1
    ensures forall other :: other != text ==> (other in EraseText(list, text) <==> other in list)
  {
    var i := FindText(list, text);
    if i < |list| {
      assert list == list[..i] + [list[i]] + list[i + 1..];
      assert multiset(Erase(list, i)) == multiset(list) - multiset{text};
      assert forall other :: other in Erase(list, i) <==> other in multiset(Erase(list, i));
      assert forall other :: other in list <==> other in multiset(list);
    } else {
      assert text !in list;
    }
  }

  /** Lifting a ban removes one entry of each list, so the ban is gone exactly if it was listed
      no more than once; bans of others stay. */
  lemma UnbanLifts(s: Server, peer: Peer, address: Text)
    requires HasModPermission(s, peer)
    ensures var s' := HandleUnban(s, peer, address).server;
            && (address !in s'.bannedNames <==> multiset(s.bannedNames)[address] <= 1)
            && (address !in s'.bannedIps <==> multiset(s.bannedIps)[address] <= 1)
            && (forall other :: other != address ==>
                  (other in s'.bannedNames <==> other in s.bannedNames)
                    && (other in s'.bannedIps <==> other in s.bannedIps))
  {
    hide EraseText, HasModPermission, ToAll;
    ErasedOnce(s.bannedNames, address);
    ErasedOnce(s.bannedIps, address);
    assert forall list: seq<Text> :: address !in list ==> multiset(list)[address] == 0;
  }

  // ----- who gets what

  predicate HasPeer(members: seq<Member>, p: Peer) {
    exists i :: 0 <= i < |members| && members[i].peer == p
  }

  lemma {:induction false} OthersGet(members: seq<Member>, sender: Peer, m: Message)
    ensures forall e :: e in ToOthers(members, sender, m) <==>
      e.Send? && e.message == m && e.peer != sender && HasPeer(members, e.peer)
  {
    if members != [] {
      OthersGet(members[1..], sender, m);
      forall p
        ensures HasPeer(members, p) <==> members[0].peer == p || HasPeer(members[1..], p)
      {
        PeerSplit(members, p);
      }
    }
  }

  lemma PeerSplit(members: seq<Member>, p: Peer)
    requires members != []
    ensures HasPeer(members, p) <==> members[0].peer == p || HasPeer(members[1..], p)
  {
    if HasPeer(members[1..], p) {
      var i :| 0 <= i < |members[1..]| && members[1..][i].peer == p;
      assert members[i + 1].peer == p;
    }
    if HasPeer(members, p) && members[0].peer != p {
      var i :| 0 <= i < |members| && members[i].peer == p;
      assert members[1..][i - 1].peer == p;
    }
  }

  /** A game packet reaches everyone but the sender if it is a broadcast, and otherwise exactly
      the one member with the remote address, unchanged. */
  lemma RelayReaches(s: Server, peer: Peer, packet: Bytes, remote: IPv4Address, broadcast: bool)
    requires Orderly(s)
    ensures var done := HandleRelay(s, peer, packet, remote, broadcast);
            && done.server == s
            && (forall e :: e in done.effects ==> e.Send? && e.message == Relayed(packet))
            && (broadcast ==> forall p :: Send(p, Relayed(packet)) in done.effects <==>
              p != peer && HasPeer(s.members, p))
            && (!broadcast ==> |done.effects| <= 1)
            && (!broadcast ==> forall i :: 0 <= i < |s.members| && s.members[i].fakeIp == remote ==>
                  done.effects == [Send(s.members[i].peer, Relayed(packet))])
            && (!broadcast && IpFree(s.members, remote) ==> done.effects == [])
  {
    hide ToOthers, IsNickname, HasPeer;
    OthersGet(s.members, peer, Relayed(packet));
  }

  /** Only members chat, in their own name, to everyone else, and with at most 500 bytes. */
  lemma ChatReaches(s: Server, peer: Peer, text: Text)
    ensures var done := HandleChat(s, peer, text);
            && done.server == s
            && (!HasPeer(s.members, peer) ==> done.effects == [])
            && (forall e :: e in done.effects ==>
                  && e.Send? && e.peer != peer && HasPeer(s.members, e.peer)
                  && e.message.ChatMessage? && |e.message.text| <= MAX_MESSAGE_SIZE && e.message.text <= text
                  && e.message.nickname == s.members[FindPeer(s.members, peer)].nickname)
  {
    hide ToOthers;
    var i := FindPeer(s.members, peer);
    if i < |s.members| {
      assert HasPeer(s.members, peer);
      var cut := if |text| <= MAX_MESSAGE_SIZE then text else text[..MAX_MESSAGE_SIZE];
      OthersGet(s.members, peer, ChatMessage(s.members[i].nickname, s.members[i].user.username, cut));
    }
  }

  /** The same connection has joined more than once. */
  predicate JoinedTwice(members: seq<Member>, p: Peer) {
    exists i, j :: 0 <= i < j < |members| && members[i].peer == p && members[j].peer == p
  }

  lemma ErasedPeer(members: seq<Member>, i: nat)
    requires i < |members|
    ensures HasPeer(Erase(members, i), members[i].peer) <==> JoinedTwice(members, members[i].peer)
  {
    var left, p := Erase(members, i), members[i].peer;
    if HasPeer(left, p) {
      var k :| 0 <= k < |left| && left[k].peer == p;
      var other := if k < i then k else k + 1;
      assert members[other].peer == p;
      assert if other < i then members[i].peer == p else other > i;
    }
    if JoinedTwice(members, p) {
      var a, b :| 0 <= a < b < |members| && members[a].peer == p && members[b].peer == p;
      var other := if a == i then b else a;
      assert left[if other < i then other else other - 1].peer == p;
    }
  }

  /** A disconnection takes only the first member of the connection out, so the connection is
      gone from the room exactly if it had not joined twice. */
  lemma DisconnectLeavesSecondJoin(s: Server, peer: Peer)
    ensures HasPeer(HandleDisconnected(s, peer).server.members, peer) <==> JoinedTwice(s.members, peer)
  {
    hide ToAll, InformationOf, Erase, JoinedTwice;
    var i := FindPeer(s.members, peer);
    if i < |s.members| {
      ErasedPeer(s.members, i);
    } else {
      assert !HasPeer(s.members, peer) && !JoinedTwice(s.members, peer) by { NoPeerNoJoin(s.members, peer); }
    }
  }

  lemma NoPeerNoJoin(members: seq<Member>, peer: Peer)
    requires FindPeer(members, peer) == |members|
    ensures !HasPeer(members, peer) && !JoinedTwice(members, peer)
  {
  }

  /** A banned target that had joined twice is still in the room, under its other name. */
  lemma BanLeavesSecondJoin(o: Outside, s: Server, peer: Peer, nickname: Text)
    requires HasModPermission(s, peer) && FindNickname(s.members, nickname) < |s.members|
    ensures var target := s.members[FindNickname(s.members, nickname)].peer;
            HasPeer(HandleBan(o, s, peer, nickname).server.members, target) <==> JoinedTwice(s.members, target)
  {
    hide HasModPermission, ToAll, InformationOf, Erase, HasPeer, JoinedTwice;
    ErasedPeer(s.members, FindNickname(s.members, nickname));
  }

  // ----- bans last

  /** The server after a sequence of events. */
  function After(o: Outside, s: Server, events: seq<Event>): Server {
    if events == [] then s else Handle(o, After(o, s, events[..|events| - 1]), events[|events| - 1]).server
  }

  /** A moderator lifts the ban of the name or address. */
  predicate Lifts(s: Server, e: Event, address: Text) {
    e.Receive? && e.request.Unban? && e.request.address == address && HasModPermission(s, e.peer)
  }

  /** Nobody does so in the course of the events. */
  predicate NeverLifted(o: Outside, s: Server, events: seq<Event>, address: Text) {
    forall k :: 0 <= k < |events| ==> !Lifts(After(o, s, events[..k]), events[k], address)
  }

  lemma BanStays(o: Outside, s: Server, e: Event, address: Text)
    requires !Lifts(s, e, address)
    ensures address in s.bannedNames ==> address in Handle(o, s, e).server.bannedNames
    ensures address in s.bannedIps ==> address in Handle(o, s, e).server.bannedIps
  {
    hide IsNickname, ToAll, ToOthers, InformationOf, HasModPermission, EraseText, Erase, JoinRefusal;
    if e.Receive? && e.request.Unban? {
      ErasedOnce(s.bannedNames, e.request.address);
      ErasedOnce(s.bannedIps, e.request.address);
    }
  }

  lemma {:induction false} BansStay(o: Outside, s: Server, events: seq<Event>, address: Text)
    requires NeverLifted(o, s, events, address)
    ensures address in s.bannedNames ==> address in After(o, s, events).bannedNames
    ensures address in s.bannedIps ==> address in After(o, s, events).bannedIps
  {
    if events != [] {
      hide Handle, Lifts;
      var front := events[..|events| - 1];
      forall k | 0 <= k < |front|
        ensures !Lifts(After(o, s, front[..k]), front[k], address)
      {
        assert front[..k] == events[..k] && front[k] == events[k];
      }
      BansStay(o, s, front, address);
      BanStays(o, After(o, s, front), events[|events| - 1], address);
    }
  }

  /** From a ban on, through whatever events follow: until a moderator lifts the ban of the
      username, nobody with that username joins, and until one lifts that of the address,
      nobody from there does. */
  lemma BanLasts(o: Outside, s: Server, peer: Peer, nickname: Text, events: seq<Event>, e: Event)
    requires HasModPermission(s, peer) && FindNickname(s.members, nickname) < |s.members|
    requires |Handle(o, After(o, HandleBan(o, s, peer, nickname).server, events), e).server.members| >
             |After(o, HandleBan(o, s, peer, nickname).server, events).members|
    ensures var banned := HandleBan(o, s, peer, nickname).server;
            var m := s.members[FindNickname(s.members, nickname)];
            && e.Receive? && e.request.Join?
            && var joined := NewMember(o, e.peer, e.request, e.generated);
            && (m.user.username != [] && NeverLifted(o, banned, events, m.user.username) ==>
                  joined.user.username != m.user.username)
            && (NeverLifted(o, banned, events, o.addressOf(m.peer)) ==> o.addressOf(joined.peer) != o.addressOf(m.peer))
  {
    hide Handle, HasModPermission, After, NeverLifted;
    var banned := HandleBan(o, s, peer, nickname).server;
    var m := s.members[FindNickname(s.members, nickname)];
    NobodyJoinsBanned(o, After(o, banned, events), e);
    BanIsListed(o, s, peer, nickname);
    if m.user.username != [] && NeverLifted(o, banned, events, m.user.username) {
      BansStay(o, banned, events, m.user.username);
    }
    if NeverLifted(o, banned, events, o.addressOf(m.peer)) {
      BansStay(o, banned, events, o.addressOf(m.peer));
    }
  }

  lemma BanIsListed(o: Outside, s: Server, peer: Peer, nickname: Text)
    requires HasModPermission(s, peer) && FindNickname(s.members, nickname) < |s.members|
    ensures var m := s.members[FindNickname(s.members, nickname)];
            var banned := HandleBan(o, s, peer, nickname).server;
            (m.user.username != [] ==> m.user.username in banned.bannedNames) && o.addressOf(m.peer) in banned.bannedIps
  {
    hide HasModPermission, Expel;
  }

  // ----- a free address

  lemma {:induction false} Enumerated(n: nat)
    requires n <= 254 * 254
    ensures |Addresses(n)| == n
    ensures forall ip :: ip in Addresses(n) ==> Drawable(ip) && Rank(ip) < n
  {
    if n > 0 {
      Enumerated(n - 1);
      RankOfAddress(n - 1);
    }
  }

  function AddressAt(k: nat): IPv4Address
    requires k < 254 * 254
  {
    IPv4Address(192, 168, 1 + k / 254, 1 + k % 254)
  }

  function Rank(ip: IPv4Address): int {
    (ip.c - 1) * 254 + (ip.d - 1)
  }

  lemma RankOfAddress(k: nat)
    requires k < 254 * 254
    ensures Rank(AddressAt(k)) == k && Drawable(AddressAt(k))
  {
  }

  ghost function Addresses(n: nat): set<IPv4Address>
    requires n <= 254 * 254
  {
    if n == 0 then {} else Addresses(n - 1) + {AddressAt(n - 1)}
  }

  ghost function IpsOf(members: seq<Member>): (r: set<IPv4Address>)
    ensures |r| <= |members|
    ensures forall i :: 0 <= i < |members| ==> members[i].fakeIp in r
  {
    if members == [] then {}
    else
      var rest := IpsOf(members[..|members| - 1]);
      rest + {members[|members| - 1].fakeIp}
  }

  lemma SubsetIsSmaller<T>(a: set<T>, b: set<T>)
    requires a <= b
    ensures |a| <= |b|
  {
    if a != {} {
      var x :| x in a;
      SubsetIsSmaller(a - {x}, b - {x});
    }
  }

  /** With at most 254 * 254 slots, a join that is not refused for a full room finds an address
      the generator can draw. */
  lemma FreeAddressExists(s: Server)
    requires |s.members| < s.info.memberSlots <= 254 * 254
    ensures exists ip :: Drawable(ip) && IpFree(s.members, ip)
  {
    hide Addresses, IpsOf;
    Enumerated(254 * 254);
    var all, taken := Addresses(254 * 254), IpsOf(s.members);
    if all <= taken {
      SubsetIsSmaller(all, taken);
      assert false;
    }
    var ip :| ip in all && ip !in taken;
    assert Drawable(ip) && IpFree(s.members, ip);
  }
}
