/** What becomes of a client, over every run of the room. */
module RoomClient {
  import opened Options
  import opened RoomServer
  import opened RoomProtocol
  import opened RoomRequests
  import RoomMember

  // ----- moderators and others

  /** The client took in the packet at the front of its channel, and nothing else happened. */
  predicate Took(before: Room, after: Room, p: Peer) {
    && p < |before.links| && before.links[p].channel != [] && IsConnected(before.links[p].client)
    && after == before.(links := before.links[p := Receives(before.links[p])])
  }

  /** Whether the last success the client took in since it last connected was one for a
      moderator. */
  function LastGrant(run: seq<Room>, i: nat, p: Peer): Option<bool>
    requires i < |run| && forall k :: 0 <= k < |run| ==> p < |run[k].links|
  {
    if i == 0 then None
    else if Took(run[i - 1], run[i], p) && IsSuccess(run[i - 1].links[p].channel[0]) then
      Some(run[i - 1].links[p].channel[0].message.asMod)
    else if !IsConnected(run[i - 1].links[p].client) && IsConnected(run[i].links[p].client) then None
    else LastGrant(run, i - 1, p)
  }

  lemma StepChanges(o: Outside, room: Room, step: Step, p: Peer)
    requires Enabled(room, step) && p < |room.links|
    ensures var room' := Next(o, room, step);
            && |room'.links| == |room.links|
            && (Took(room, room', p) || !InRoom(room'.links[p].client)
                || room'.links[p].client.state == room.links[p].client.state)
  {
    hide Handle, TouchAll, GeneratorKept, OnPacket, Cut;
    match step
    case Connects(q) =>
    case ServerHandles(e, kept) => SameClient(room.links[p], p, Handle(o, room.server, e).effects, kept(p));
    case ClientReceives(q) =>
      if q == p {
        assert Took(room, Next(o, room, step), p);
      }
    case ClientLeaves(q) =>
    case ConnectionBreaks(q, lost) => CutSameClient(room.links[q], lost);
  }

  lemma CutSameClient(l: Link, kept: nat)
    ensures Cut(l, kept).client == l.client
  {
  }

  lemma {:induction false} SameClient(l: Link, peer: Peer, effects: seq<Effect>, kept: nat)
    ensures TouchAll(l, peer, effects, kept).client == l.client
  {
    if effects != [] {
      SameClient(l, peer, effects[..|effects| - 1], kept);
    }
  }

  lemma {:induction false} LinksStay(o: Outside, run: seq<Room>, i: nat)
    requires IsRun(o, run) && i < |run|
    ensures |run[i].links| == |run[0].links|
  {
    hide Enabled, Next, Initial;
    if i > 0 {
      LinksStay(o, run, i - 1);
      assert Steps(o, run[i - 1], run[i]);
      var step: Step :| Enabled(run[i - 1], step) && run[i] == Next(o, run[i - 1], step);
      if |run[0].links| > 0 {
        StepChanges(o, run[i - 1], step, 0);
      } else {
        NobodyConnects(o, run[i - 1], step);
      }
    }
  }

  lemma NobodyConnects(o: Outside, room: Room, step: Step)
    requires Enabled(room, step) && room.links == []
    ensures Next(o, room, step).links == []
  {
    hide Handle, GeneratorKept;
  }

  lemma InOrOut(before: Room, after: Room, p: Peer)
    requires Took(before, after, p) && InRoom(after.links[p].client)
    ensures IsSuccess(before.links[p].channel[0]) ==>
            after.links[p].client.state == if before.links[p].channel[0].message.asMod then Moderator else Joined
    ensures !IsSuccess(before.links[p].channel[0]) ==> after.links[p].client.state == before.links[p].client.state
  {
  }

  /** In every run a client that is in the room is a moderator if the last success it took in
      was one for moderators, and an ordinary member if it was not. */
  lemma {:induction false} StateIsGranted(o: Outside, run: seq<Room>, i: nat, p: Peer)
    requires IsRun(o, run) && i < |run| && p < |run[0].links|
    requires forall k :: 0 <= k < |run| ==> p < |run[k].links|
    requires InRoom(run[i].links[p].client)
    ensures LastGrant(run, i, p) == Some(run[i].links[p].client.state == Moderator)
  {
    if i > 0 {
      assert Steps(o, run[i - 1], run[i]);
      var step: Step :| Enabled(run[i - 1], step) && run[i] == Next(o, run[i - 1], step);
      StepChanges(o, run[i - 1], step, p);
      hide Enabled, Next, Initial, IsRun, Took, IsSuccess;
      if Took(run[i - 1], run[i], p) {
        InOrOut(run[i - 1], run[i], p);
      }
      if !Took(run[i - 1], run[i], p) || !IsSuccess(run[i - 1].links[p].channel[0]) {
        StateIsGranted(o, run, i - 1, p);
      }
    }
  }

  /** The client's state over every run, with the links that are there from the start. */
  lemma ModeratorsAreGranted(o: Outside, run: seq<Room>, i: nat, p: Peer)
    requires IsRun(o, run) && i < |run| && p < |run[0].links|
    ensures forall k :: 0 <= k < |run| ==> p < |run[k].links|
    ensures run[i].links[p].client.state == Moderator ==> LastGrant(run, i, p) == Some(true)
    ensures run[i].links[p].client.state == Joined ==> LastGrant(run, i, p) == Some(false)
  {
    hide IsRun, LastGrant;
    forall k | 0 <= k < |run|
      ensures p < |run[k].links|
    {
      LinksStay(o, run, k);
    }
    if InRoom(run[i].links[p].client) {
      StateIsGranted(o, run, i, p);
    }
  }

  // ----- what the end of a membership sounds like

  lemma {:induction false} TouchConcat(l: Link, peer: Peer, a: seq<Effect>, b: seq<Effect>, kept: nat)
    ensures TouchAll(l, peer, a + b, kept) == TouchAll(TouchAll(l, peer, a, kept), peer, b, kept)
  {
    if b == [] {
      assert a + b == a;
    } else {
      var front, last := b[..|b| - 1], b[|b| - 1];
      assert a + b == (a + front) + [last] && b == front + [last];
      TouchConcat(l, peer, a, front, kept);
      TouchSnoc(l, peer, a + front, last, kept);
      TouchSnoc(TouchAll(l, peer, a, kept), peer, front, last, kept);
    }
  }

  lemma {:induction false} DownStays(l: Link, peer: Peer, effects: seq<Effect>, kept: nat)
    requires !l.up
    ensures TouchAll(l, peer, effects, kept) == l
  {
    if effects != [] {
      DownStays(l, peer, effects[..|effects| - 1], kept);
    }
  }

  lemma TouchTwo(l: Link, peer: Peer, notice: Message, kept: nat)
    requires l.up && l.channel == []
    ensures TouchAll(l, peer, [Send(peer, notice), Disconnect(peer)], kept).channel
         == (if kept == 0 then [] else [Deliver(notice)]) + [Dropped]
    ensures !TouchAll(l, peer, [Send(peer, notice), Disconnect(peer)], kept).up
  {
    TouchSnoc(l, peer, [], Send(peer, notice), kept);
    TouchSnoc(l, peer, [Send(peer, notice)], Disconnect(peer), kept);
    NoTouch(l, peer, kept);
    assert [] + [Send(peer, notice)] == [Send(peer, notice)];
    assert [Send(peer, notice)] + [Disconnect(peer)] == [Send(peer, notice), Disconnect(peer)];
  }

  lemma NoticeHeard(c: Client, notice: Message, kept: nat)
    requires InRoom(c) && (notice.HostKicked? || notice.Refused?)
    ensures RoomMember.Absorb(c, (if kept == 0 then [] else [Deliver(notice)]) + [Dropped])
         == Client(Idle, [], c.fakeIp,
              c.errors + [if kept == 0 then LostConnection else if notice.HostKicked? then Kicked
                          else RoomRefused(notice.why)])
  {
    if kept == 0 {
      var ps: seq<Packet> := [Dropped];
      assert [] + ps == ps && ps[1..] == [];
    } else {
      var ps := [Deliver(notice)] + [Dropped];
      assert ps[0] == Deliver(notice);
    }
  }

  /** What the connection of the expelled member is left with, and its client after it. */
  lemma ExpelledHears(s: Server, i: nat, notice: Message, kind: StatusType, done: Outcome, l: Link, kept: nat)
    requires Expelled(s, i, notice, kind, done) && (notice.HostKicked? || notice.Refused?)
    requires l.up && l.channel == [] && InRoom(l.client)
    ensures var l' := TouchAll(l, s.members[i].peer, done.effects, kept);
            && !l'.up
            && RoomMember.Absorb(l'.client, l'.channel) ==
               Client(Idle, [], l.client.fakeIp, l.client.errors + [if kept == 0 then LostConnection
                 else if notice.HostKicked? then Kicked else RoomRefused(notice.why)])
  {
    hide TouchAll, IsUpdate, EachGets, Without;
    var p := s.members[i].peer;
    var head, rest := [Send(p, notice), Disconnect(p)], done.effects[2..];
    assert done.effects == head + rest;
    TouchConcat(l, p, head, rest, kept);
    TouchTwo(l, p, notice, kept);
    DownStays(TouchAll(l, p, head, kept), p, rest, kept);
    SameClient(l, p, head, kept);
    NoticeHeard(l.client, notice, kept);
  }

  /** A member that is up to date and is kicked by a moderator finds out that it was, unless the
      end of the connection overtakes the news; then it has lost the connection. Either way it
      is out, with an empty list. */
  lemma KickedClientKnows(o: Outside, s: Server, e: Event, l: Link, kept: nat)
    requires e.Receive? && e.request.Kick? && Moderates(s, e.peer) && Named(s.members, e.request.nickname)
    requires l.up && l.channel == [] && InRoom(l.client)
    ensures exists i: nat :: IsNamed(s.members, e.request.nickname, i)
              && var l' := TouchAll(l, s.members[i].peer, Handle(o, s, e).effects, kept);
                 RoomMember.Absorb(l'.client, l'.channel) == Client(Idle, [], l.client.fakeIp,
                   l.client.errors + [if kept == 0 then LostConnection else Kicked])
  {
    hide Moderates, Named, Expelled, Handle, TouchAll;
    KickIsDone(o, s, e);
    var i :| IsNamed(s.members, e.request.nickname, i) && Expelled(s, i, HostKicked, MemberKicked, Handle(o, s, e));
    ExpelledHears(s, i, HostKicked, MemberKicked, Handle(o, s, e), l, kept);
  }

  /** The same for a ban. */
  lemma BannedClientKnows(o: Outside, s: Server, e: Event, l: Link, kept: nat)
    requires e.Receive? && e.request.Ban? && Moderates(s, e.peer) && Named(s.members, e.request.nickname)
    requires l.up && l.channel == [] && InRoom(l.client)
    ensures exists i: nat :: IsNamed(s.members, e.request.nickname, i)
              && var l' := TouchAll(l, s.members[i].peer, Handle(o, s, e).effects, kept);
                 RoomMember.Absorb(l'.client, l'.channel) == Client(Idle, [], l.client.fakeIp,
                   l.client.errors + [if kept == 0 then LostConnection else RoomRefused(HostBanned)])
  {
    hide Moderates, Named, Expelled, Handle, TouchAll;
    BanIsDone(o, s, e);
    var i :| IsNamed(s.members, e.request.nickname, i) && Banishes(o, s, i, Handle(o, s, e));
    ExpelledHears(s, i, Refused(HostBanned), MemberBanned, Handle(o, s, e), l, kept);
  }

  /** A client that is turned down hears the first reason there is, and is out. */
  lemma RefusedClientKnows(o: Outside, s: Server, e: Event, l: Link, kept: nat)
    requires e.Receive? && e.request.Join? && !forall w :: !TurnsDown(o, s, e, w)
    requires l.up && l.channel == [] && l.client.state == Joining
    ensures exists k :: 0 <= k < |CHECKS| && TurnsDown(o, s, e, CHECKS[k])
              && (forall j :: 0 <= j < k ==> !TurnsDown(o, s, e, CHECKS[j]))
              && var l' := TouchAll(l, e.peer, Handle(o, s, e).effects, kept);
                 RoomMember.Absorb(l'.client, l'.channel) == Client(Idle, [], l.client.fakeIp,
                   l.client.errors + [RoomRefused(CHECKS[k])])
  {
    hide TurnsDown, Handle;
    JoinIsDecided(o, s, e);
    var k :| 0 <= k < |CHECKS| && Handle(o, s, e).effects == [Send(e.peer, Refused(CHECKS[k]))]
      && TurnsDown(o, s, e, CHECKS[k]) && forall j :: 0 <= j < k ==> !TurnsDown(o, s, e, CHECKS[j]);
    OneHeard(l, e.peer, Refused(CHECKS[k]), kept);
  }

  lemma OneHeard(l: Link, peer: Peer, m: Message, kept: nat)
    requires l.up && l.channel == [] && IsConnected(l.client) && m.Refused?
    ensures var l' := TouchAll(l, peer, [Send(peer, m)], kept);
            RoomMember.Absorb(l'.client, l'.channel)
            == Client(Idle, [], l.client.fakeIp, l.client.errors + [RoomRefused(m.why)])
  {
    TouchSnoc(l, peer, [], Send(peer, m), kept);
    NoTouch(l, peer, kept);
    assert [] + [Send(peer, m)] == [Send(peer, m)];
    assert [Deliver(m)][1..] == [];
  }
}
