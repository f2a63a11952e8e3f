/** The class `Room::RoomImpl` of src/network/room.cpp. Each handler is proved to do what
    RoomServer says. */
module Room {
  import opened Bytes
  import opened RoomServer

  /** The addresses drawn from the random stream, two bytes each. */
  function Drawn(draws: nat -> Byte, at: nat): IPv4Address {
    IPv4Address(192, 168, draws(at), draws(at + 1))
  }

  class RoomImpl {
    const room_information: RoomInfo
    const password: Text
    const outside: Outside
    /** The bytes the distribution yields, in order. */
    const draws: nat -> Byte
    var random_gen: nat
    var members: seq<Member>
    var username_ban_list: seq<Text>
    var ip_ban_list: seq<Text>
    /** What ENet has been asked to do, in order. */
    var sent: seq<Effect>

    /** `Room::Create`. */
    constructor (info: RoomInfo, password: Text, outside: Outside, draws: nat -> Byte, bannedNames: seq<Text>,
                 bannedIps: seq<Text>)
      ensures State() == Server(info, password, [], bannedNames, bannedIps) && Orderly(State())
      ensures sent == [] && this.outside == outside && this.draws == draws && random_gen == 0
    {
      this.room_information, this.password, this.outside, this.draws := info, password, outside, draws;
      members, username_ban_list, ip_ban_list, sent, random_gen := [], bannedNames, bannedIps, [], 0;
    }

    ghost function State(): Server
      reads this`members, this`username_ban_list, this`ip_ban_list
    {
      Server(room_information, password, members, username_ban_list, ip_ban_list)
    }

    /** The handler has done what the outcome says, and nothing else. */
    twostate predicate Did(outcome: Outcome)
      reads this
    {
      State() == outcome.server && sent == old(sent) + outcome.effects
    }

    // ----- questions

    method IsValidNickname(nickname: Text) returns (ok: bool)
      ensures ok == (IsNickname(nickname) && NicknameFree(members, nickname))
    {
      if !IsNickname(nickname) {
        return false;
      }
      for i := 0 to |members|
        invariant NicknameFree(members[..i], nickname)
      {
        if members[i].nickname == nickname {
          return false;
        }
      }
      return true;
    }

    method IsValidFakeIPAddress(address: IPv4Address) returns (ok: bool)
      ensures ok == IpFree(members, address)
    {
      for i := 0 to |members|
        invariant IpFree(members[..i], address)
      {
        if members[i].fakeIp == address {
          return false;
        }
      }
      return true;
    }

    method CheckMod(client: Peer) returns (ok: bool)
      ensures ok == HasModPermission(State(), client)
    {
      var i := FindPeer(members, client);
      if i == |members| {
        return false;
      }
      if room_information.enableMods && members[i].user.moderator {
        return true;
      }
      if room_information.hostUsername != [] && members[i].user.username == room_information.hostUsername {
        return true;
      }
      return false;
    }

    /** Draws until the address is free. That one of the draws to come is free is what makes
        the loop end. */
    method GenerateFakeIPAddress(ghost free: nat) returns (ip: IPv4Address)
      requires forall k :: 1 <= draws(k) <= 0xFE
      requires IpFree(members, Drawn(draws, random_gen + 2 * free))
      modifies this`random_gen
      ensures Drawable(ip) && IpFree(members, ip)
      ensures old(random_gen) < random_gen <= old(random_gen) + 2 * free + 2
    {
      ip := Drawn(draws, random_gen);
      random_gen := random_gen + 2;
      ghost var tried := 0;
      var ok := IsValidFakeIPAddress(ip);
      while !ok
        invariant tried <= free && random_gen == old(random_gen) + 2 * tried + 2
        invariant ip == Drawn(draws, old(random_gen) + 2 * tried)
        invariant ok == IpFree(members, ip)
        decreases free - tried
      {
        ip := Drawn(draws, random_gen);
        random_gen := random_gen + 2;
        tried := tried + 1;
        ok := IsValidFakeIPAddress(ip);
      }
    }

    // ----- sending

    method Post(peer: Peer, m: Message)
      modifies this`sent
      ensures sent == old(sent) + [Send(peer, m)]
    {
      sent := sent + [Send(peer, m)];
    }

    method SendToMembers(m: Message)
      modifies this`sent
      ensures sent == old(sent) + ToAll(members, m)
    {
      for i := 0 to |members|
        invariant sent == old(sent) + ToAll(members, m)[..i]
      {
        Post(members[i].peer, m);
      }
    }

    static lemma NextOther(members: seq<Member>, i: nat, sender: Peer, m: Message)
      requires i < |members|
      ensures ToOthers(members[i..], sender, m)
           == (if members[i].peer == sender then [] else [Send(members[i].peer, m)])
              + ToOthers(members[i + 1..], sender, m)
    {
      assert members[i..][1..] == members[i + 1..];
    }

    method SendToOthers(sender: Peer, m: Message)
      modifies this`sent
      ensures sent == old(sent) + ToOthers(members, sender, m)
    {
      assert ToOthers([], sender, m) == [] && members[0..] == members;
      hide ToOthers;
      for i := 0 to |members|
        invariant sent + ToOthers(members[i..], sender, m) == old(sent) + ToOthers(members, sender, m)
      {
        NextOther(members, i, sender, m);
        ghost var before, others := sent, ToOthers(members[i + 1..], sender, m);
        if members[i].peer != sender {
          Post(members[i].peer, m);
          assert before + ([Send(members[i].peer, m)] + others) == sent + others;
        } else {
          assert before + ([] + others) == sent + others;
        }
      }
    }

    /** Packs the members one after the other. */
    method BroadcastRoomInformation()
      modifies this`sent
      ensures sent == old(sent) + [Broadcast(InformationOf(State()))]
    {
      var entries: seq<Entry> := [];
      for i := 0 to |members|
        invariant entries == EntriesOf(members)[..i]
      {
        entries := entries + [EntryOf(members[i])];
      }
      assert entries == EntriesOf(members);
      sent := sent + [Broadcast(Information(room_information, entries))];
    }

    // ----- handlers

    method HandleJoinRequest(peer: Peer, r: Request, ghost free: nat) returns (ghost generated: IPv4Address)
      requires r.Join? && (forall k :: 1 <= draws(k) <= 0xFE)
      requires r.preferred == NO_PREFERRED_IP && |members| < room_information.memberSlots ==>
                 IpFree(members, Drawn(draws, random_gen + 2 * free))
      modifies this
      ensures Generated(old(State()), r, generated)
      ensures Did(HandleJoin(outside, old(State()), peer, r, generated))
    {
      hide IsNickname, Drawable, HasModPermission, ToAll;
      generated := Drawn(draws, random_gen + 2 * free);
      if |members| >= room_information.memberSlots {
        Post(peer, Refused(RoomIsFull));
        return;
      }
      FreeIsGenerated(free);
      if r.password != password {
        Post(peer, Refused(WrongPassword));
        return;
      }
      var ok := IsValidNickname(r.nickname);
      if !ok {
        Post(peer, Refused(NameCollision));
        return;
      }
      var ip := r.preferred;
      if ip != NO_PREFERRED_IP {
        ok := IsValidFakeIPAddress(ip);
        if !ok {
          Post(peer, Refused(IpCollision));
          return;
        }
      } else {
        ip := GenerateFakeIPAddress(free);
        generated := ip;
      }
      if r.version != NETWORK_VERSION {
        Post(peer, Refused(VersionMismatch));
        return;
      }
      var member := Member(r.nickname, GameInfo([], 0, []), ip, outside.loadUser(r.token), peer);
      if member.user.username != [] && member.user.username in username_ban_list {
        Post(peer, Refused(HostBanned));
        return;
      }
      if outside.addressOf(peer) in ip_ban_list {
        Post(peer, Refused(HostBanned));
        return;
      }
      Admit(member);
    }

    lemma FreeIsGenerated(free: nat)
      requires forall k :: 1 <= draws(k) <= 0xFE
      ensures Drawable(Drawn(draws, random_gen + 2 * free))
    {
    }

    method Admit(member: Member)
      modifies this`members, this`sent
      ensures members == old(members) + [member]
      ensures sent == old(sent) + (ToAll(old(members), Status(MemberJoin, member.nickname, member.user.username))
                + [Broadcast(InformationOf(State())),
                   Send(member.peer, JoinSuccess(member.fakeIp, HasModPermission(State(), member.peer)))])
    {
      hide HasModPermission, ToAll, InformationOf;
      SendToMembers(Status(MemberJoin, member.nickname, member.user.username));
      members := members + [member];
      BroadcastRoomInformation();
      var mod := CheckMod(member.peer);
      Post(member.peer, JoinSuccess(member.fakeIp, mod));
    }

    /** The part kicking and banning share. */
    method ExpelMember(target: nat, notice: Message, kind: StatusType)
      requires target < |members|
      modifies this`members, this`sent
      ensures Did(Expel(old(State()), target, notice, kind))
    {
      hide ToAll, InformationOf;
      var m := members[target];
      Post(m.peer, notice);
      sent := sent + [Disconnect(m.peer)];
      members := Erase(members, target);
      SendToMembers(Status(kind, m.nickname, m.user.username));
      BroadcastRoomInformation();
    }

    method HandleModKickPacket(peer: Peer, nickname: Text)
      modifies this
      ensures Did(HandleKick(old(State()), peer, nickname))
    {
      hide HasModPermission, Expel;
      var mod := CheckMod(peer);
      if !mod {
        Post(peer, PermissionDenied);
        return;
      }
      var target := FindNickname(members, nickname);
      if target == |members| {
        Post(peer, NoSuchUser);
        return;
      }
      ExpelMember(target, HostKicked, MemberKicked);
    }

    method HandleModBanPacket(peer: Peer, nickname: Text)
      modifies this
      ensures Did(HandleBan(outside, old(State()), peer, nickname))
    {
      hide HasModPermission;
      var mod := CheckMod(peer);
      if !mod {
        Post(peer, PermissionDenied);
        return;
      }
      var target := FindNickname(members, nickname);
      if target == |members| {
        Post(peer, NoSuchUser);
        return;
      }
      hide ToAll, InformationOf, Erase;
      var username := members[target].user.username;
      var ip := outside.addressOf(members[target].peer);
      ExpelMember(target, Refused(HostBanned), MemberBanned);
      if username != [] {
        if username !in username_ban_list {
          username_ban_list := username_ban_list + [username];
        }
      }
      if ip !in ip_ban_list {
        ip_ban_list := ip_ban_list + [ip];
      }
    }

    method HandleModUnbanPacket(peer: Peer, address: Text)
      modifies this
      ensures Did(HandleUnban(old(State()), peer, address))
    {
      hide HasModPermission, ToAll;
      var mod := CheckMod(peer);
      if !mod {
        Post(peer, PermissionDenied);
        return;
      }
      var unbanned := false;
      var it := FindText(username_ban_list, address);
      if it != |username_ban_list| {
        unbanned := true;
        username_ban_list := Erase(username_ban_list, it);
      }
      it := FindText(ip_ban_list, address);
      if it != |ip_ban_list| {
        unbanned := true;
        ip_ban_list := Erase(ip_ban_list, it);
      }
      if unbanned {
        SendToMembers(Status(AddressUnbanned, address, []));
      } else {
        Post(peer, NoSuchUser);
      }
    }

    method HandleModGetBanListPacket(peer: Peer)
      modifies this
      ensures Did(HandleGetBanList(old(State()), peer))
    {
      hide HasModPermission;
      var mod := CheckMod(peer);
      if !mod {
        Post(peer, PermissionDenied);
        return;
      }
      Post(peer, BanList(username_ban_list, ip_ban_list));
    }

    method HandleGameInfoPacket(peer: Peer, game: GameInfo)
      modifies this
      ensures Did(HandleGameInfo(old(State()), peer, game))
    {
      hide InformationOf;
      var i := FindPeer(members, peer);
      if i != |members| {
        members := members[i := members[i].(game := game)];
      }
      BroadcastRoomInformation();
    }

    method HandleChatPacket(peer: Peer, message: Text)
      modifies this
      ensures Did(HandleChat(old(State()), peer, message))
    {
      hide ToOthers;
      var i := FindPeer(members, peer);
      if i == |members| {
        return;
      }
      var text := if |message| <= MAX_MESSAGE_SIZE then message else message[..MAX_MESSAGE_SIZE];
      SendToOthers(peer, ChatMessage(members[i].nickname, members[i].user.username, text));
    }

    /** `HandleProxyPacket` and `HandleLdnPacket`. */
    method HandleRelayPacket(peer: Peer, packet: Bytes, remote: IPv4Address, broadcast: bool)
      modifies this
      ensures Did(HandleRelay(old(State()), peer, packet, remote, broadcast))
    {
      hide ToOthers;
      if broadcast {
        SendToOthers(peer, Relayed(packet));
      } else {
        var i := FindIp(members, remote);
        if i != |members| {
          Post(members[i].peer, Relayed(packet));
        }
      }
    }

    method HandleClientDisconnection(client: Peer)
      modifies this
      ensures Did(HandleDisconnected(old(State()), client))
    {
      hide ToAll, InformationOf;
      var nickname, username := [], [];
      var i := FindPeer(members, client);
      if i != |members| {
        nickname, username := members[i].nickname, members[i].user.username;
        members := Erase(members, i);
      }
      sent := sent + [Disconnect(client)];
      if nickname != [] {
        SendToMembers(Status(MemberLeave, nickname, username));
      }
      BroadcastRoomInformation();
    }

    method SendCloseMessage()
      modifies this
      ensures Did(HandleClose(old(State())))
    {
      hide ToAll;
      SendToMembers(CloseRoom);
      ghost var told := sent;
      for i := 0 to |members|
        invariant unchanged(`members, `username_ban_list, `ip_ban_list)
        invariant sent == told + DisconnectAll(members)[..i]
      {
        sent := sent + [Disconnect(members[i].peer)];
      }
    }

    /** The requests `ServerLoop` dispatches. */
    method HandleReceive(peer: Peer, r: Request, ghost free: nat) returns (ghost generated: IPv4Address)
      requires forall k :: 1 <= draws(k) <= 0xFE
      requires r.Join? && r.preferred == NO_PREFERRED_IP && |members| < room_information.memberSlots ==>
                 IpFree(members, Drawn(draws, random_gen + 2 * free))
      modifies this
      ensures r.Join? ==> Generated(old(State()), r, generated)
      ensures Did(HandleRequest(outside, old(State()), peer, r, generated))
    {
      hide HandleJoin, HandleKick, HandleBan, HandleUnban, HandleGetBanList, HandleGameInfo, HandleChat, HandleRelay,
           Generated;
      generated := NO_PREFERRED_IP;
      match r
      case Join(_, _, _, _, _) => generated := HandleJoinRequest(peer, r, free);
      case Kick(nickname) => HandleModKickPacket(peer, nickname);
      case Ban(nickname) => HandleModBanPacket(peer, nickname);
      case Unban(address) => HandleModUnbanPacket(peer, address);
      case GetBanList => HandleModGetBanListPacket(peer);
      case SetGameInfo(game) => HandleGameInfoPacket(peer, game);
      case Chat(text) => HandleChatPacket(peer, text);
      case Relay(packet, remote, broadcast) => HandleRelayPacket(peer, packet, remote, broadcast);
    }
  }
}
