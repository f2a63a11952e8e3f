/** One server and any number of clients over reliable first-in-first-out connections, as a
    transition system: src/network/room.cpp on one side, the receive loop of
    src/network/room_member.cpp on the other. A connected peer may send anything at any time,
    also a second request to join. */
module RoomProtocol {
  import opened Options
  import opened RoomServer

  datatype ClientState = Idle | Joining | Joined | Moderator

  datatype Error =
    LostConnection | RoomRefused(why: Refusal) | Kicked | NotPermitted | UnknownUser

  datatype Client = Client(state: ClientState, members: seq<Entry>, fakeIp: IPv4Address, errors: seq<Error>)

  /** What the client's receive loop gets out of the network. */
  datatype Packet = Deliver(message: Message) | Dropped

  /** One connection: whether the server can still send on it, whether room information has
      been sent on it, what is under way, and the client at its end. */
  datatype Link = Link(up: bool, informed: bool, channel: seq<Packet>, client: Client)

  datatype Room = Room(server: Server, links: seq<Link>)

  predicate IsConnected(c: Client) {
    c.state != Idle
  }

  // ----- the client

  /** The loop ends and `Disconnect` forgets the members. */
  function Ended(c: Client, errors: seq<Error>): Client {
    Client(Idle, [], c.fakeIp, c.errors + errors)
  }

  /** One pass of `MemberLoop` over a received message. */
  function OnMessage(c: Client, m: Message): Client {
    match m
    case Information(_, entries) => c.(members := entries)
    case JoinSuccess(ip, asMod) => c.(fakeIp := ip, state := if asMod then Moderator else Joined)
    case Refused(why) => Ended(c, [RoomRefused(why)])
    case CloseRoom => Ended(c, [LostConnection])
    case HostKicked => Ended(c, [Kicked])
    case PermissionDenied => c.(errors := c.errors + [NotPermitted])
    case NoSuchUser => c.(errors := c.errors + [UnknownUser])
    case _ => c
  }

  function OnPacket(c: Client, p: Packet): Client {
    match p
    case Deliver(m) => OnMessage(c, m)
    case Dropped => if c.state == Joined || c.state == Moderator then Ended(c, [LostConnection]) else c
  }

  // ----- the network

  /** Ending a connection may lose what has not arrived yet, from some packet on. */
  function Cut(l: Link, kept: nat): Link {
    if !l.up then l
    else l.(up := false, channel := l.channel[..if kept < |l.channel| then kept else |l.channel|] + [Dropped])
  }

  function Pushed(l: Link, m: Message): Link {
    if l.up then l.(channel := l.channel + [Deliver(m)], informed := l.informed || m.Information?) else l
  }

  /** What one effect of the server does to the connection of `peer`. */
  function Touch(l: Link, peer: Peer, e: Effect, kept: nat): Link {
    match e
    case Send(to, m) => if to == peer then Pushed(l, m) else l
    case Broadcast(m) => Pushed(l, m)
    case Disconnect(to) => if to == peer then Cut(l, kept) else l
  }

  function TouchAll(l: Link, peer: Peer, effects: seq<Effect>, kept: nat): Link {
    if effects == [] then l
    else Touch(TouchAll(l, peer, effects[..|effects| - 1], kept), peer, effects[|effects| - 1], kept)
  }

  function Delivered(room: Room, outcome: Outcome, kept: Peer -> nat): Room {
    Room(outcome.server, seq(|room.links|, p requires 0 <= p < |room.links| =>
      TouchAll(room.links[p], p, outcome.effects, kept(p))))
  }

  // ----- steps

  datatype Step =
    | Connects(peer: Peer)
    | ServerHandles(event: Event, kept: Peer -> nat)
    | ClientReceives(peer: Peer)
    | ClientLeaves(peer: Peer)
    | ConnectionBreaks(peer: Peer, lost: nat)

  predicate Enabled(room: Room, step: Step) {
    match step
    case Connects(p) => p < |room.links| && !room.links[p].up && !IsConnected(room.links[p].client)
    case ServerHandles(e, kept) =>
      && GeneratorKept(room.server, e)
      && (e.Receive? ==> e.peer < |room.links| && room.links[e.peer].up)
      && (e.Disconnected? ==> e.peer < |room.links| && !room.links[e.peer].up)
    case ClientReceives(p) =>
      p < |room.links| && room.links[p].channel != [] && IsConnected(room.links[p].client)
    case ClientLeaves(p) => p < |room.links|
    case ConnectionBreaks(p, lost) => p < |room.links|
  }

  function Receives(l: Link): Link
    requires l.channel != []
  {
    l.(channel := l.channel[1..], client := OnPacket(l.client, l.channel[0]))
  }

  function Next(o: Outside, room: Room, step: Step): Room
    requires Enabled(room, step)
  {
    match step
    case Connects(p) =>
      var c := room.links[p].client;
      room.(links := room.links[p := Link(true, false, [], c.(state := Joining))])
    case ServerHandles(e, kept) => Delivered(room, Handle(o, room.server, e), kept)
    case ClientReceives(p) => room.(links := room.links[p := Receives(room.links[p])])
    case ClientLeaves(p) => room.(links := room.links[p := room.links[p].(client := Ended(room.links[p].client, []))])
    case ConnectionBreaks(p, lost) => room.(links := room.links[p := Cut(room.links[p], lost)])
  }

  /** An empty room nobody is connected to. */
  predicate Initial(room: Room) {
    && room.server.members == []
    && forall p :: 0 <= p < |room.links| ==>
         var l := room.links[p]; !l.up && l.channel == [] && l.client.state == Idle && l.client.members == []
  }

  ghost predicate Steps(o: Outside, room: Room, room': Room) {
    exists step: Step :: Enabled(room, step) && room' == Next(o, room, step)
  }

  ghost predicate IsRun(o: Outside, run: seq<Room>) {
    && run != [] && Initial(run[0])
    && forall i :: 0 < i < |run| ==> Steps(o, run[i - 1], run[i])
  }

  // ----- what every connection keeps

  /** Exactly one entry carries the address. */
  predicate ExactlyOne(entries: seq<Entry>, ip: IPv4Address) {
    exists i :: 0 <= i < |entries| && entries[i].fakeIp == ip
      && forall j :: 0 <= j < |entries| && entries[j].fakeIp == ip ==> j == i
  }

  /** The list the client will have when everything under way has arrived. */
  function Latest(members: seq<Entry>, channel: seq<Packet>): seq<Entry> {
    if channel == [] then members
    else
      var last := channel[|channel| - 1];
      if last.Deliver? && last.message.Information? then last.message.entries
      else Latest(members, channel[..|channel| - 1])
  }

  predicate IsSuccess(p: Packet) {
    p.Deliver? && p.message.JoinSuccess?
  }

  /** A list with exactly the granted address once: right in front of the success at `i`. */
  predicate Backed(c: Client, channel: seq<Packet>, i: nat)
    requires i < |channel| && IsSuccess(channel[i])
  {
    if i == 0 then IsConnected(c) ==> ExactlyOne(c.members, channel[0].message.ip)
    else
      var before := channel[i - 1];
      before.Deliver? && before.message.Information? && ExactlyOne(before.message.entries, channel[i].message.ip)
  }

  predicate SuccessesBacked(l: Link) {
    forall i :: 0 <= i < |l.channel| && IsSuccess(l.channel[i]) ==> Backed(l.client, l.channel, i)
  }

  predicate HasSuccess(channel: seq<Packet>) {
    exists i :: 0 <= i < |channel| && IsSuccess(channel[i])
  }

  predicate InRoom(c: Client) {
    c.state == Joined || c.state == Moderator
  }

  predicate LinkOk(l: Link, entries: seq<Entry>) {
    && SuccessesBacked(l)
    && (l.up && (InRoom(l.client) || HasSuccess(l.channel)) ==> l.informed)
    && (l.up && l.informed && IsConnected(l.client) ==> Latest(l.client.members, l.channel) == entries)
    && (!IsConnected(l.client) ==> l.client.members == [])
    && EndsInDrop(l)
  }

  /** What is left of a connection that is down ends with the news of it, and a client that has
      heard the news is not in the room. */
  predicate EndsInDrop(l: Link) {
    !l.up ==> if l.channel == [] then !InRoom(l.client) else l.channel[|l.channel| - 1] == Dropped
  }

  predicate Inv(room: Room) {
    && Orderly(room.server)
    && forall p :: 0 <= p < |room.links| ==> LinkOk(room.links[p], EntriesOf(room.server.members))
  }

  // ----- packets that are neither room information nor a success

  predicate PlainMessage(m: Message) {
    !m.Information? && !m.JoinSuccess?
  }

  predicate Plain(e: Effect) {
    e.Disconnect? || PlainMessage(e.message)
  }

  predicate AllPlain(effects: seq<Effect>) {
    forall i :: 0 <= i < |effects| ==> Plain(effects[i])
  }

  /** What a handler may ask for when it leaves the member list alone, or when it changes it. */
  predicate WellBehaved(effects: seq<Effect>, before: seq<Entry>, after: seq<Entry>, info: RoomInfo) {
    || (before == after && AllPlain(effects))
    || EndsInformed(effects, after, info)
    || (&& |effects| >= 2 && EndsInformed(effects[..|effects| - 1], after, info)
        && effects[|effects| - 1].Send? && effects[|effects| - 1].message.JoinSuccess?
        && ExactlyOne(after, effects[|effects| - 1].message.ip))
  }

  predicate EndsInformed(effects: seq<Effect>, after: seq<Entry>, info: RoomInfo) {
    && effects != [] && AllPlain(effects[..|effects| - 1])
    && effects[|effects| - 1] == Broadcast(Information(info, after))
  }

  lemma {:induction false} OthersPlain(members: seq<Member>, sender: Peer, m: Message)
    requires PlainMessage(m)
    ensures AllPlain(ToOthers(members, sender, m))
  {
    if members != [] {
      OthersPlain(members[1..], sender, m);
    }
  }

  lemma AllPlainToAll(members: seq<Member>, m: Message)
    requires PlainMessage(m)
    ensures AllPlain(ToAll(members, m))
  {
  }

  lemma OneBroadcast(quiet: seq<Effect>, effects: seq<Effect>, before: seq<Entry>, after: seq<Entry>, info: RoomInfo)
    requires AllPlain(quiet) && effects == quiet + [Broadcast(Information(info, after))]
    ensures WellBehaved(effects, before, after, info)
  {
    assert effects[..|effects| - 1] == quiet;
  }

  lemma NewAddressIsUnique(o: Outside, s: Server, peer: Peer, r: Request, generated: IPv4Address)
    requires Orderly(s) && r.Join? && JoinRefusal(o, s, peer, r).None?
    requires Generated(s, r, generated)
    ensures var m := NewMember(o, peer, r, generated); ExactlyOne(EntriesOf(s.members + [m]), m.fakeIp)
  {
    hide IsNickname;
    var m := NewMember(o, peer, r, generated);
    var es := EntriesOf(s.members + [m]);
    assert es[|s.members|].fakeIp == m.fakeIp;
    forall j | 0 <= j < |es| && es[j].fakeIp == m.fakeIp
      ensures j == |s.members|
    {
      assert (s.members + [m])[j].fakeIp == m.fakeIp;
    }
  }

  lemma JoinBehaves(o: Outside, s: Server, peer: Peer, r: Request, generated: IPv4Address)
    requires Orderly(s) && r.Join? && Generated(s, r, generated)
    ensures var done := HandleJoin(o, s, peer, r, generated);
            WellBehaved(done.effects, EntriesOf(s.members), EntriesOf(done.server.members), s.info)
  {
    hide Orderly, IsNickname, HasModPermission, ToAll, ExactlyOne, EntriesOf, Generated;
    if JoinRefusal(o, s, peer, r).None? {
      NewAddressIsUnique(o, s, peer, r, generated);
      var m := NewMember(o, peer, r, generated);
      var status := ToAll(s.members, Status(MemberJoin, m.nickname, m.user.username));
      AllPlainToAll(s.members, Status(MemberJoin, m.nickname, m.user.username));
      var effects := HandleJoin(o, s, peer, r, generated).effects;
      assert effects[..|effects| - 1][..|effects| - 2] == status;
    }
  }

  lemma ExpelBehaves(s: Server, target: nat, notice: Message, kind: StatusType)
    requires target < |s.members| && PlainMessage(notice)
    ensures var done := Expel(s, target, notice, kind);
            WellBehaved(done.effects, EntriesOf(s.members), EntriesOf(done.server.members), s.info)
  {
    hide ToAll, EntriesOf, Erase;
    var m := s.members[target];
    var left := Erase(s.members, target);
    var status := ToAll(left, Status(kind, m.nickname, m.user.username));
    AllPlainToAll(left, Status(kind, m.nickname, m.user.username));
    OneBroadcast([Send(m.peer, notice), Disconnect(m.peer)] + status, Expel(s, target, notice, kind).effects,
                 EntriesOf(s.members), EntriesOf(left), s.info);
  }

  lemma DisconnectedBehaves(s: Server, peer: Peer)
    ensures var done := HandleDisconnected(s, peer);
            WellBehaved(done.effects, EntriesOf(s.members), EntriesOf(done.server.members), s.info)
  {
    hide ToAll, EntriesOf, Erase;
    var done := HandleDisconnected(s, peer);
    var i := FindPeer(s.members, peer);
    if i == |s.members| {
      OneBroadcast([Disconnect(peer)], done.effects, EntriesOf(s.members), EntriesOf(s.members), s.info);
    } else {
      var m := s.members[i];
      var left := Erase(s.members, i);
      AllPlainToAll(left, Status(MemberLeave, m.nickname, m.user.username));
      var status := if m.nickname == [] then [] else ToAll(left, Status(MemberLeave, m.nickname, m.user.username));
      OneBroadcast([Disconnect(peer)] + status, done.effects, EntriesOf(s.members), EntriesOf(left), s.info);
    }
  }

  lemma GameInfoBehaves(s: Server, peer: Peer, game: GameInfo)
    ensures var done := HandleGameInfo(s, peer, game);
            WellBehaved(done.effects, EntriesOf(s.members), EntriesOf(done.server.members), s.info)
  {
    hide EntriesOf;
    var done := HandleGameInfo(s, peer, game);
    OneBroadcast([], done.effects, EntriesOf(s.members), EntriesOf(done.server.members), s.info);
  }

  /** Every change of the member list is followed, in the same pass of the loop, by room
      information that lists the new members; a success follows such information directly. */
  lemma HandlersBehave(o: Outside, s: Server, e: Event)
    requires Orderly(s) && GeneratorKept(s, e)
    ensures WellBehaved(Handle(o, s, e).effects, EntriesOf(s.members), EntriesOf(Handle(o, s, e).server.members),
      s.info)
  {
    hide Orderly, WellBehaved, HandleJoin, Expel, HandleDisconnected, HandleGameInfo, EntriesOf, ToAll, ToOthers,
         Generated;
    match e
    case Disconnected(peer) => DisconnectedBehaves(s, peer);
    case Close => CloseBehaves(s);
    case Receive(peer, r, generated) =>
      match r
      case Join(_, _, _, _, _) => JoinBehaves(o, s, peer, r, generated);
      case Kick(nickname) => KickBehaves(s, peer, nickname);
      case Ban(nickname) => BanBehaves(o, s, peer, nickname);
      case SetGameInfo(game) => GameInfoBehaves(s, peer, game);
      case _ => QuietBehaves(o, s, peer, r, generated);
  }

  lemma CloseBehaves(s: Server)
    ensures WellBehaved(HandleClose(s).effects, EntriesOf(s.members), EntriesOf(s.members), s.info)
  {
    hide EntriesOf;
  }

  lemma KickBehaves(s: Server, peer: Peer, nickname: Text)
    ensures var done := HandleKick(s, peer, nickname);
            WellBehaved(done.effects, EntriesOf(s.members), EntriesOf(done.server.members), s.info)
  {
    hide EntriesOf, Expel, HasModPermission;
    var target := FindNickname(s.members, nickname);
    if target < |s.members| {
      ExpelBehaves(s, target, HostKicked, MemberKicked);
    }
  }

  lemma BanBehaves(o: Outside, s: Server, peer: Peer, nickname: Text)
    ensures var done := HandleBan(o, s, peer, nickname);
            WellBehaved(done.effects, EntriesOf(s.members), EntriesOf(done.server.members), s.info)
  {
    hide EntriesOf, Expel, HasModPermission, AddText;
    var target := FindNickname(s.members, nickname);
    if target < |s.members| {
      ExpelBehaves(s, target, Refused(HostBanned), MemberBanned);
    }
  }

  lemma QuietBehaves(o: Outside, s: Server, peer: Peer, r: Request, generated: IPv4Address)
    requires r.Unban? || r.GetBanList? || r.Chat? || r.Relay?
    ensures var done := HandleRequest(o, s, peer, r, generated);
            WellBehaved(done.effects, EntriesOf(s.members), EntriesOf(done.server.members), s.info)
  {
    hide EntriesOf, HasModPermission, EraseText, ToOthers, ToAll;
    match r
    case Unban(address) => AllPlainToAll(s.members, Status(AddressUnbanned, address, []));
    case Chat(text) =>
      if FindPeer(s.members, peer) < |s.members| {
        var m := s.members[FindPeer(s.members, peer)];
        var cut := if |text| <= MAX_MESSAGE_SIZE then text else text[..MAX_MESSAGE_SIZE];
        OthersPlain(s.members, peer, ChatMessage(m.nickname, m.user.username, cut));
      }
    case Relay(packet, remote, broadcast) => OthersPlain(s.members, peer, Relayed(packet));
    case _ =>
  }

  // ----- effects on one connection

  lemma PushPlainKeeps(l: Link, m: Message, entries: seq<Entry>)
    requires LinkOk(l, entries) && PlainMessage(m)
    ensures LinkOk(Pushed(l, m), entries)
  {
    hide ExactlyOne;
    if l.up {
      var l' := Pushed(l, m);
      assert l'.channel[..|l'.channel| - 1] == l.channel;
    }
  }

  lemma CutKeeps(l: Link, kept: nat, entries: seq<Entry>)
    requires LinkOk(l, entries)
    ensures LinkOk(Cut(l, kept), entries)
  {
    hide ExactlyOne;
  }

  lemma {:induction false} PlainKeeps(l: Link, peer: Peer, effects: seq<Effect>, kept: nat, entries: seq<Entry>)
    requires LinkOk(l, entries) && AllPlain(effects)
    ensures LinkOk(TouchAll(l, peer, effects, kept), entries)
  {
    if effects != [] {
      hide LinkOk, Pushed, Cut;
      var front, last := effects[..|effects| - 1], effects[|effects| - 1];
      PlainKeeps(l, peer, front, kept, entries);
      var l' := TouchAll(l, peer, front, kept);
      if last.Disconnect? {
        CutKeeps(l', kept, entries);
      } else {
        PushPlainKeeps(l', last.message, entries);
      }
    }
  }

  /** Room information brings every connection up to date, whatever it was before. */
  lemma InformationUpdates(l: Link, info: RoomInfo, before: seq<Entry>, after: seq<Entry>)
    requires LinkOk(l, before)
    ensures LinkOk(Pushed(l, Information(info, after)), after)
  {
    hide ExactlyOne;
    if l.up {
      var l' := Pushed(l, Information(info, after));
      assert l'.channel[..|l'.channel| - 1] == l.channel;
    }
  }

  lemma SuccessKeeps(l: Link, info: RoomInfo, before: seq<Entry>, after: seq<Entry>, ip: IPv4Address, asMod: bool)
    requires LinkOk(l, before) && ExactlyOne(after, ip)
    ensures LinkOk(Pushed(Pushed(l, Information(info, after)), JoinSuccess(ip, asMod)), after)
  {
    InformationUpdates(l, info, before, after);
    hide ExactlyOne;
    if l.up {
      var l' := Pushed(l, Information(info, after));
      var l'' := Pushed(l', JoinSuccess(ip, asMod));
      assert l''.channel[..|l''.channel| - 1] == l'.channel;
      SuccessesStayBacked(l', JoinSuccess(ip, asMod));
    }
  }

  lemma SuccessesStayBacked(l: Link, m: Message)
    requires l.up && SuccessesBacked(l) && l.channel != [] && m.JoinSuccess?
    requires var last := l.channel[|l.channel| - 1];
             last.Deliver? && last.message.Information? && ExactlyOne(last.message.entries, m.ip)
    ensures SuccessesBacked(Pushed(l, m))
  {
    hide ExactlyOne;
    var l' := Pushed(l, m);
    forall i | 0 <= i < |l'.channel| && IsSuccess(l'.channel[i])
      ensures Backed(l'.client, l'.channel, i)
    {
      if i < |l.channel| {
        assert Backed(l.client, l.channel, i);
      }
    }
  }

  lemma TouchSnoc(l: Link, peer: Peer, effects: seq<Effect>, e: Effect, kept: nat)
    ensures TouchAll(l, peer, effects + [e], kept) == Touch(TouchAll(l, peer, effects, kept), peer, e, kept)
  {
    assert (effects + [e])[..|effects|] == effects;
  }

  lemma EffectsKeep(l: Link, peer: Peer, effects: seq<Effect>, kept: nat, before: seq<Entry>, after: seq<Entry>,
                    info: RoomInfo)
    requires LinkOk(l, before) && WellBehaved(effects, before, after, info)
    ensures LinkOk(TouchAll(l, peer, effects, kept), after)
  {
    hide LinkOk, TouchAll, AllPlain, ExactlyOne, Pushed;
    if before == after && AllPlain(effects) {
      PlainKeeps(l, peer, effects, kept, before);
    } else if EndsInformed(effects, after, info) {
      InformedKeeps(l, peer, effects, kept, before, after, info);
    } else {
      var front, last := effects[..|effects| - 1], effects[|effects| - 1];
      assert front + [last] == effects;
      TouchSnoc(l, peer, front, last, kept);
      InformedKeeps(l, peer, front, kept, before, after, info);
      SuccessKeeps(TouchAll(l, peer, front[..|front| - 1], kept), info, before, after, last.message.ip,
        last.message.asMod);
    }
  }

  lemma InformedKeeps(l: Link, peer: Peer, effects: seq<Effect>, kept: nat, before: seq<Entry>, after: seq<Entry>,
                      info: RoomInfo)
    requires LinkOk(l, before) && EndsInformed(effects, after, info)
    ensures LinkOk(TouchAll(l, peer, effects[..|effects| - 1], kept), before)
    ensures TouchAll(l, peer, effects, kept) ==
            Pushed(TouchAll(l, peer, effects[..|effects| - 1], kept), Information(info, after))
    ensures LinkOk(TouchAll(l, peer, effects, kept), after)
  {
    hide LinkOk, TouchAll, AllPlain, Pushed;
    var quiet := effects[..|effects| - 1];
    assert quiet + [Broadcast(Information(info, after))] == effects;
    PlainKeeps(l, peer, quiet, kept, before);
    TouchSnoc(l, peer, quiet, Broadcast(Information(info, after)), kept);
    InformationUpdates(TouchAll(l, peer, quiet, kept), info, before, after);
  }

  // ----- every step

  /** A client that takes a packet in keeps what its connection promises. */
  lemma ReceiveKeeps(l: Link, entries: seq<Entry>)
    requires LinkOk(l, entries) && l.channel != [] && IsConnected(l.client)
    ensures LinkOk(Receives(l), entries)
  {
    hide ExactlyOne;
    var l' := Receives(l);
    LatestRest(l.client.members, l.channel);
    if IsConnected(l'.client) {
      TookIn(l);
    }
    forall i | 0 <= i < |l'.channel| && IsSuccess(l'.channel[i])
      ensures Backed(l'.client, l'.channel, i)
    {
      assert Backed(l.client, l.channel, i + 1);
    }
    SuccessLeft(l);
  }

  lemma SuccessLeft(l: Link)
    requires l.channel != []
    ensures HasSuccess(l.channel[1..]) || IsSuccess(l.channel[0]) ==> HasSuccess(l.channel)
  {
    if HasSuccess(l.channel[1..]) {
      var i :| 0 <= i < |l.channel[1..]| && IsSuccess(l.channel[1..][i]);
      assert IsSuccess(l.channel[i + 1]);
    }
  }

  function Heard(members: seq<Entry>, p: Packet): seq<Entry> {
    if p.Deliver? && p.message.Information? then p.message.entries else members
  }

  lemma TookIn(l: Link)
    requires l.channel != [] && IsConnected(l.client) && IsConnected(Receives(l).client)
    ensures Receives(l).client.members == Heard(l.client.members, l.channel[0])
  {
  }

  lemma {:induction false} LatestRest(members: seq<Entry>, channel: seq<Packet>)
    requires channel != []
    ensures Latest(members, channel) == Latest(Heard(members, channel[0]), channel[1..])
  {
    if |channel| == 1 {
      assert channel[..0] == [];
    } else {
      var front := channel[..|channel| - 1];
      LatestRest(members, front);
      assert front[1..] == channel[1..][..|channel| - 2];
    }
  }

  lemma ServerStepKeeps(o: Outside, room: Room, e: Event, kept: Peer -> nat)
    requires Inv(room) && Enabled(room, ServerHandles(e, kept))
    ensures Inv(Delivered(room, Handle(o, room.server, e), kept))
  {
    hide LinkOk, Orderly, Handle, WellBehaved, TouchAll, EntriesOf, GeneratorKept;
    StaysOrderly(o, room.server, e);
    HandlersBehave(o, room.server, e);
    var done := Handle(o, room.server, e);
    forall p | 0 <= p < |room.links|
      ensures LinkOk(TouchAll(room.links[p], p, done.effects, kept(p)), EntriesOf(done.server.members))
    {
      EffectsKeep(room.links[p], p, done.effects, kept(p), EntriesOf(room.server.members),
                  EntriesOf(done.server.members), room.server.info);
    }
  }

  lemma ConnectKeeps(l: Link, entries: seq<Entry>)
    requires LinkOk(l, entries) && !IsConnected(l.client)
    ensures LinkOk(Link(true, false, [], l.client.(state := Joining)), entries)
  {
  }

  lemma LeaveKeeps(l: Link, entries: seq<Entry>)
    requires LinkOk(l, entries)
    ensures LinkOk(l.(client := Ended(l.client, [])), entries)
  {
    hide ExactlyOne;
    var l' := l.(client := Ended(l.client, []));
    forall i | 0 <= i < |l'.channel| && IsSuccess(l'.channel[i])
      ensures Backed(l'.client, l'.channel, i)
    {
      assert Backed(l.client, l.channel, i);
    }
  }

  lemma StepKeeps(o: Outside, room: Room, step: Step)
    requires Inv(room) && Enabled(room, step)
    ensures Inv(Next(o, room, step))
  {
    hide LinkOk, Orderly, Handle, EntriesOf, GeneratorKept, Receives, Cut, Ended, Delivered, IsConnected;
    var entries := EntriesOf(room.server.members);
    match step
    case Connects(p) => ConnectKeeps(room.links[p], entries);
    case ServerHandles(e, kept) => ServerStepKeeps(o, room, e, kept);
    case ClientReceives(p) => ReceiveKeeps(room.links[p], entries);
    case ClientLeaves(p) => LeaveKeeps(room.links[p], entries);
    case ConnectionBreaks(p, lost) => CutKeeps(room.links[p], lost, entries);
  }

  lemma InitialInv(room: Room)
    requires Initial(room)
    ensures Inv(room)
  {
  }

  lemma {:induction false} RunKeeps(o: Outside, run: seq<Room>, i: nat)
    requires IsRun(o, run) && i < |run|
    ensures Inv(run[i])
  {
    hide Inv, Enabled, Next, Initial;
    if i == 0 {
      InitialInv(run[0]);
    } else {
      RunKeeps(o, run, i - 1);
      var room, room' := run[i - 1], run[i];
      assert Steps(o, room, room');
      var step: Step :| Enabled(room, step) && room' == Next(o, room, step);
      StepKeeps(o, room, step);
    }
  }

  // ----- the two promises, over every run

  /** A client that is about to handle a join success already holds a list of members, and
      exactly one entry of it carries the address it is granted. */
  lemma SuccessFindsItself(o: Outside, run: seq<Room>, i: nat, p: Peer)
    requires IsRun(o, run) && i < |run| && p < |run[i].links|
    requires var l := run[i].links[p]; IsConnected(l.client) && l.channel != [] && IsSuccess(l.channel[0])
    ensures var l := run[i].links[p];
            l.client.members != [] && ExactlyOne(l.client.members, l.channel[0].message.ip)
  {
    hide IsRun;
    RunKeeps(o, run, i);
    assert Backed(run[i].links[p].client, run[i].links[p].channel, 0);
  }

  /** A joined client with nothing under way to it has exactly the server's members, in order:
      its connection is up, or it would have heard otherwise. */
  lemma DrainedIsCurrent(o: Outside, run: seq<Room>, i: nat, p: Peer)
    requires IsRun(o, run) && i < |run| && p < |run[i].links|
    requires var l := run[i].links[p]; InRoom(l.client) && l.channel == []
    ensures run[i].links[p].up && run[i].links[p].client.members == EntriesOf(run[i].server.members)
  {
    hide IsRun;
    RunKeeps(o, run, i);
  }

  /** Every reachable room is orderly. */
  lemma ReachableIsOrderly(o: Outside, run: seq<Room>, i: nat)
    requires IsRun(o, run) && i < |run|
    ensures Orderly(run[i].server)
  {
    hide IsRun;
    RunKeeps(o, run, i);
  }

  // ----- the promises are about something

  /** What a first join puts on the connection that asked for it. */
  lemma FirstJoinArrives(o: Outside, s: Server, r: Request, generated: IPv4Address, l: Link, kept: nat)
    requires s.members == [] && r.Join? && JoinRefusal(o, s, 0, r).None? && l.up && l.channel == []
    ensures var done := HandleJoin(o, s, 0, r, generated);
            var m := NewMember(o, 0, r, generated);
            && done.server.members == [m]
            && TouchAll(l, 0, done.effects, kept) ==
               Link(true, true, [Deliver(InformationOf(done.server)),
                 Deliver(JoinSuccess(m.fakeIp, HasModPermission(done.server, 0)))], l.client)
  {
    hide HasModPermission, InformationOf, JoinRefusal, TouchAll;
    var done := HandleJoin(o, s, 0, r, generated);
    var m := NewMember(o, 0, r, generated);
    var told := Broadcast(InformationOf(done.server));
    var success := Send(0, JoinSuccess(m.fakeIp, HasModPermission(done.server, 0)));
    assert s.members + [m] == [m];
    assert done.effects == [told, success] == [told] + [success];
    TouchSnoc(l, 0, [], told, kept);
    TouchSnoc(l, 0, [told], success, kept);
    assert [] + [told] == [told];
    assert TouchAll(l, 0, [], kept) == l by { NoTouch(l, 0, kept); }
    InformationIs(done.server);
  }

  lemma NoTouch(l: Link, peer: Peer, kept: nat)
    ensures TouchAll(l, peer, [], kept) == l
  {
  }

  lemma InformationIs(s: Server)
    ensures InformationOf(s).Information? && InformationOf(s).entries == EntriesOf(s.members)
  {
  }

  lemma ConnectsAlone(o: Outside, s: Server, c: Client)
    requires c.state == Idle
    ensures Steps(o, Room(s, [Link(false, false, [], c)]), Room(s, [Link(true, false, [], c.(state := Joining))]))
  {
    var room := Room(s, [Link(false, false, [], c)]);
    assert Enabled(room, Connects(0));
    assert Next(o, room, Connects(0)).links == [Link(true, false, [], c.(state := Joining))];
  }

  lemma AnsweredAlone(o: Outside, s: Server, r: Request, generated: IPv4Address, l: Link)
    requires r.Join? && Generated(s, r, generated) && l.up
    ensures var done := HandleJoin(o, s, 0, r, generated);
            Steps(o, Room(s, [l]), Room(done.server, [TouchAll(l, 0, done.effects, 0)]))
  {
    hide HandleJoin, Generated, TouchAll;
    var room, step := Room(s, [l]), ServerHandles(Receive(0, r, generated), p => 0);
    assert Enabled(room, step);
    var done := HandleJoin(o, s, 0, r, generated);
    assert Next(o, room, step).links == [TouchAll(l, 0, done.effects, 0)];
  }

  lemma ReceivesAlone(o: Outside, s: Server, l: Link)
    requires l.channel != [] && IsConnected(l.client)
    ensures Steps(o, Room(s, [l]), Room(s, [Receives(l)]))
  {
    hide Receives;
    var room := Room(s, [l]);
    assert Enabled(room, ClientReceives(0));
    assert Next(o, room, ClientReceives(0)).links == [Receives(l)];
  }

  /** From every empty room, a connection whose request passes the checks becomes a member: its
      client ends joined, with nothing under way and itself on its list. */
  lemma AJoinCompletes(o: Outside, s: Server, r: Request, generated: IPv4Address, c: Client) returns (run: seq<Room>)
    requires s.members == [] && r.Join? && JoinRefusal(o, s, 0, r).None? && Generated(s, r, generated)
    requires c.state == Idle && c.members == []
    ensures IsRun(o, run) && run[0].server == s
    ensures var last := run[|run| - 1];
            && |last.links| == 1 && last.links[0].up && last.links[0].channel == [] && InRoom(last.links[0].client)
            && last.server.members == [NewMember(o, 0, r, generated)]
            && last.links[0].client.members == EntriesOf(last.server.members)
            && last.links[0].client.fakeIp == last.server.members[0].fakeIp
  {
    hide HandleJoin, JoinRefusal, Generated, TouchAll, HasModPermission, EntriesOf, InformationOf, Steps;
    var waiting := Link(true, false, [], c.(state := Joining));
    var done := HandleJoin(o, s, 0, r, generated);
    var answered := TouchAll(waiting, 0, done.effects, 0);
    ConnectsAlone(o, s, c);
    AnsweredAlone(o, s, r, generated, waiting);
    FirstJoinArrives(o, s, r, generated, waiting, 0);
    InformationIs(done.server);
    ReceivesAlone(o, done.server, answered);
    ReceivesAlone(o, done.server, Receives(answered));
    run := [Room(s, [Link(false, false, [], c)]), Room(s, [waiting]), Room(done.server, [answered]),
            Room(done.server, [Receives(answered)]), Room(done.server, [Receives(Receives(answered))])];
  }
}
