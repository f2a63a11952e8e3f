/** The class `RoomMember::RoomMemberImpl` of src/network/room_member.cpp. */
module RoomMember {
  import opened Bytes
  import opened Options
  import opened PacketFormat
  import opened RoomServer
  import opened RoomProtocol
  import opened RoomWire
  import P = Packet

  /** What is left of a client after it has taken in packets for as long as it was connected. */
  function Absorb(c: Client, packets: seq<RoomProtocol.Packet>): Client
    decreases |packets|
  {
    if packets == [] || !IsConnected(c) then c else Absorb(OnPacket(c, packets[0]), packets[1..])
  }

  class RoomMemberImpl {
    var state: ClientState
    var member_information: seq<Entry>
    var fake_ip: IPv4Address
    /** The errors the error callback was invoked with, in order. */
    var errors: seq<Error>
    var send_list: seq<Bytes>
    /** Whether an assertion of the loop was violated. */
    var assertionFailed: bool

    constructor ()
      ensures View() == Client(Idle, [], NO_PREFERRED_IP, []) && send_list == [] && !assertionFailed
    {
      state, member_information, fake_ip, errors := Idle, [], NO_PREFERRED_IP, [];
      send_list, assertionFailed := [], false;
    }

    ghost function View(): Client
      reads this`state, this`member_information, this`fake_ip, this`errors
    {
      Client(state, member_information, fake_ip, errors)
    }

    method Fail(error: Error)
      modifies this`state, this`errors
      ensures state == Idle && errors == old(errors) + [error]
    {
      state := Idle;
      errors := errors + [error];
    }

    /** A message, decoded, is dispatched. The members are forgotten only when the loop ends. */
    method Receive(m: Message)
      requires IsConnected(View())
      modifies this`state, this`member_information, this`fake_ip, this`errors, this`assertionFailed
      ensures var done := OnMessage(old(View()), m);
              && View() == done.(members := member_information)
              && (IsConnected(done) ==> View() == done)
      ensures assertionFailed <==> old(assertionFailed) || (m.JoinSuccess? && old(member_information) == [])
    {
      match m
      case Information(_, entries) => member_information := entries;
      case JoinSuccess(ip, asMod) =>
        if |member_information| == 0 {
          assertionFailed := true;
        }
        fake_ip := ip;
        state := if asMod then Moderator else Joined;
      case Refused(why) => Fail(RoomRefused(why));
      case CloseRoom => Fail(LostConnection);
      case HostKicked => Fail(Kicked);
      case PermissionDenied => errors := errors + [NotPermitted];
      case NoSuchUser => errors := errors + [UnknownUser];
      case _ =>
    }

    /** The loop takes packets while the client is connected, and then disconnects. */
    method MemberLoop(packets: seq<RoomProtocol.Packet>)
      requires IsConnected(View())
      modifies this`state, this`member_information, this`fake_ip, this`errors, this`assertionFailed
      ensures View() == Absorb(old(View()), packets)
    {
      var i := 0;
      while state != Idle && i < |packets|
        invariant i <= |packets|
        invariant IsConnected(View()) ==> Absorb(View(), packets[i..]) == Absorb(old(View()), packets)
        invariant !IsConnected(View()) ==> View().(members := []) == Absorb(old(View()), packets)
        decreases |packets| - i
      {
        hide OnMessage;
        ghost var before := View();
        match packets[i] {
          case Deliver(m) =>
            Receive(m);
            EndedIsEmpty(before, m);
          case Dropped =>
            if state == Joined || state == Moderator {
              Fail(LostConnection);
            }
        }
        i := i + 1;
        assert packets[i - 1..][1..] == packets[i..];
        assert Absorb(before, packets[i - 1..]) == Absorb(OnPacket(before, packets[i - 1]), packets[i..]);
      }
      if state == Idle {
        Disconnect();
      }
    }

    static lemma EndedIsEmpty(c: Client, m: Message)
      requires IsConnected(c)
      ensures !IsConnected(OnMessage(c, m)) ==> OnMessage(c, m).members == []
    {
    }

    method Disconnect()
      modifies this`member_information
      ensures member_information == []
    {
      member_information := [];
    }

    /** Reads the header and then as many entries as it announces. */
    method HandleRoomInformationPacket(data: Bytes, blank: Kind -> Value)
      modifies this`member_information
      ensures member_information == ParseInformation(data, blank).entries
    {
      hide Decode, DecodeEntries;
      var packet := new P.Packet();
      packet.Append(data);
      packet.IgnoreBytes(1);
      assert [] + data == data;
      var header := ReadFields(packet, HEADER_KINDS, blank);
      ghost var c := packet.View();
      member_information := [];
      assert DecodeEntries(0, c, blank) == EntriesRead([], c) by { DecodeNone(c, blank); }
      var count := ToNat(header[6]);
      for i := 0 to count
        invariant EntriesRead(member_information, packet.View()) == DecodeEntries(i, c, blank)
      {
        var v := ReadFields(packet, ENTRY_KINDS, blank);
        DecodeNext(i, c, blank);
        member_information := member_information + [EntryFrom(v)];
      }
    }

    static lemma DecodeNone(c: Cursor, blank: Kind -> Value)
      ensures DecodeEntries(0, c, blank) == EntriesRead([], c)
    {
    }

    static lemma DecodeNext(count: nat, c: Cursor, blank: Kind -> Value)
      ensures var front := DecodeEntries(count, c, blank);
              var r := DecodeAll(ENTRY_KINDS, front.cursor, blank);
              DecodeEntries(count + 1, c, blank) == EntriesRead(front.entries + [EntryFrom(r.values)], r.cursor)
    {
      hide DecodeAll, EntryFrom;
    }

    /** Queues the request to join: the server will read it as it is, whatever its variables
        held. */
    method SendJoinRequest(r: Request, ghost blank: Kind -> Value)
      requires r.Join? && Fits(JoinFields(r))
      modifies this`send_list
      ensures |send_list| == |old(send_list)| + 1 && old(send_list) <= send_list
      ensures ParseJoin(send_list[|send_list| - 1], blank) == r
    {
      hide LengthsFit, HasShape, Encode, EncodeAll, ParseJoin, JoinFields;
      IdFits(ID_JOIN_REQUEST);
      ghost var all := [IdField(ID_JOIN_REQUEST)] + JoinFields(r);
      EncodeFirst(IdField(ID_JOIN_REQUEST), JoinFields(r));
      var packet := new P.Packet();
      WriteFields(packet, [IdField(ID_JOIN_REQUEST)] + JoinFields(r));
      assert [] + EncodeAll(all) == EncodeAll(all);
      send_list := send_list + [packet.data];
      JoinArrives(r, blank);
    }
  }

  method ReadFields(packet: P.Packet, kinds: seq<Kind>, blank: Kind -> Value) returns (values: seq<Value>)
    modifies packet
    ensures Readings(values, packet.View()) == DecodeAll(kinds, old(packet.View()), blank)
  {
    hide Decode;
    values := [];
    for i := 0 to |kinds|
      invariant Readings(values, packet.View()) == DecodeAll(kinds[..i], old(packet.View()), blank)
    {
      var v := packet.ReadValue(kinds[i], blank(kinds[i]), blank);
      values := values + [v];
      assert kinds[..i + 1][..i] == kinds[..i];
    }
    assert kinds[..|kinds|] == kinds;
  }

  method WriteFields(packet: P.Packet, fields: seq<Field>)
    requires Fits(fields)
    modifies packet
    ensures packet.data == old(packet.data) + EncodeAll(fields)
  {
    hide Encode, LengthsFit, HasShape;
    for i := 0 to |fields|
      invariant packet.data == old(packet.data) + EncodeAll(fields[..i])
    {
      packet.WriteValue(fields[i].value, fields[i].kind);
      assert fields[..i + 1][..i] == fields[..i];
    }
    assert fields[..|fields|] == fields;
  }
}
