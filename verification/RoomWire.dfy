/** The packets a join consists of, as bytes: the request of `SendJoinRequest` and the room
    information of `BroadcastRoomInformation`, and what the other side reads out of them. */
module RoomWire {
  import opened Bytes
  import opened PacketFormat
  import opened RoomServer

  const ID_JOIN_REQUEST := 1
  const ID_ROOM_INFORMATION := 3

  const U8 := NumberKind(W8, false)
  const U16 := NumberKind(W16, false)
  const U32 := NumberKind(W32, false)
  const U64 := NumberKind(W64, false)
  const IP_KIND := ArrayKind(4, U8)

  function FromIp(ip: IPv4Address): Value {
    Items([Number(ip.a), Number(ip.b), Number(ip.c), Number(ip.d)])
  }

  /** A variable that could not be read holds some byte. */
  function ToByte(v: Value): Byte {
    if v.Number? && 0 <= v.n < 256 then v.n else 0
  }

  function ToIp(v: Value): IPv4Address {
    if v.Items? && |v.items| == 4
    then IPv4Address(ToByte(v.items[0]), ToByte(v.items[1]), ToByte(v.items[2]), ToByte(v.items[3]))
    else NO_PREFERRED_IP
  }

  function ToNat(v: Value): nat {
    if v.Number? && v.n >= 0 then v.n else 0
  }

  function ToText(v: Value): Bytes {
    if v.Text? then v.text else []
  }

  // ----- the request to join

  const JOIN_KINDS := [TextKind, IP_KIND, U32, TextKind, TextKind]

  function JoinFields(r: Request): seq<Field>
    requires r.Join?
  {
    [Field(TextKind, Text(r.nickname)), Field(IP_KIND, FromIp(r.preferred)), Field(U32, Number(r.version)),
     Field(TextKind, Text(r.password)), Field(TextKind, Text(r.token))]
  }

  function IdField(id: nat): Field {
    Field(U8, Number(id))
  }

  /** What `HandleJoinRequest` reads; the first byte is ignored. */
  function ParseJoin(data: Bytes, blank: Kind -> Value): Request {
    var v := DecodeAll(JOIN_KINDS, Cursor(data, 1, true), blank).values;
    Join(ToText(v[0]), ToIp(v[1]), ToNat(v[2]), ToText(v[3]), ToText(v[4]))
  }

  lemma {:induction false} EncodeFirst(first: Field, rest: seq<Field>)
    requires HasKind(first.value, first.kind) && Fits(rest)
    ensures Fits([first] + rest)
    ensures EncodeAll([first] + rest) == Encode(first.value, first.kind) + EncodeAll(rest)
  {
    hide Encode, LengthsFit, HasShape;
    var all := [first] + rest;
    assert Fits(all);
    if rest == [] {
      assert all == [first] && all[..0] == [];
      assert [first][..0] == [];
    } else {
      var front, last := rest[..|rest| - 1], rest[|rest| - 1];
      EncodeFirst(first, front);
      assert all[..|all| - 1] == [first] + front;
    }
  }

  /** Past the identifier, the cursor stands in front of the other fields. */
  lemma PastId(id: nat, rest: seq<Field>, more: Bytes)
    requires id < 256 && Fits(rest)
    ensures Fits([IdField(id)] + rest)
    ensures At(Cursor(EncodeAll([IdField(id)] + rest) + more, 1, true), EncodeAll(rest) + more)
  {
    IdFits(id);
    hide Encode, LengthsFit, HasShape, EncodeAll;
    EncodeFirst(IdField(id), rest);
    var a, b := Encode(Number(id), U8), EncodeAll(rest);
    assert a + b + more == a + (b + more);
    AtBehind(a, b + more);
  }

  lemma AtBehind(a: Bytes, b: Bytes)
    ensures At(Cursor(a + b, |a|, true), b)
  {
  }

  lemma IdFits(id: nat)
    requires id < 256
    ensures HasKind(Number(id), U8) && |Encode(Number(id), U8)| == 1
  {
  }

  lemma IpBack(ip: IPv4Address)
    ensures ToIp(FromIp(ip)) == ip
  {
  }

  /** What a client sends to join is what the server handles. */
  lemma JoinArrives(r: Request, blank: Kind -> Value)
    requires r.Join? && Fits(JoinFields(r))
    ensures Fits([IdField(ID_JOIN_REQUEST)] + JoinFields(r))
    ensures ParseJoin(EncodeAll([IdField(ID_JOIN_REQUEST)] + JoinFields(r)), blank) == r
  {
    var fields := JoinFields(r);
    assert KindsOf(fields) == JOIN_KINDS;
    JoinValues(r);
    IpBack(r.preferred);
    hide EncodeAll, DecodeAll, LengthsFit, HasShape, ToIp, FromIp;
    PastId(ID_JOIN_REQUEST, fields, []);
    var data := EncodeAll([IdField(ID_JOIN_REQUEST)] + fields);
    assert data + [] == data && EncodeAll(fields) + [] == EncodeAll(fields);
    AllReadBack(fields, Cursor(data, 1, true), blank);
  }

  lemma JoinValues(r: Request)
    requires r.Join?
    ensures ValuesOf(JoinFields(r))
      == [Text(r.nickname), FromIp(r.preferred), Number(r.version), Text(r.password), Text(r.token)]
  {
    hide FromIp;
  }

  // ----- room information

  const HEADER_KINDS := [TextKind, TextKind, U32, U16, TextKind, TextKind, U32]
  const ENTRY_KINDS := [TextKind, IP_KIND, TextKind, U64, TextKind, TextKind, TextKind, TextKind]

  function HeaderFields(info: RoomInfo, count: nat): seq<Field> {
    [Field(TextKind, Text(info.name)), Field(TextKind, Text(info.description)), Field(U32, Number(info.memberSlots)),
     Field(U16, Number(info.port)), Field(TextKind, Text(info.preferredGame)), Field(TextKind, Text(info.hostUsername)),
     Field(U32, Number(count))]
  }

  function EntryFields(e: Entry): seq<Field> {
    [Field(TextKind, Text(e.nickname)), Field(IP_KIND, FromIp(e.fakeIp)), Field(TextKind, Text(e.game.name)),
     Field(U64, Number(e.game.id)), Field(TextKind, Text(e.game.version)), Field(TextKind, Text(e.username)),
     Field(TextKind, Text(e.displayName)), Field(TextKind, Text(e.avatarUrl))]
  }

  function EntryFrom(v: seq<Value>): Entry
    requires |v| == 8
  {
    Entry(ToText(v[0]), ToIp(v[1]), GameInfo(ToText(v[2]), ToNat(v[3]), ToText(v[4])),
          ToText(v[5]), ToText(v[6]), ToText(v[7]))
  }

  predicate AllFit(entries: seq<Entry>) {
    forall i :: 0 <= i < |entries| ==> Fits(EntryFields(entries[i]))
  }

  function EncodeEntries(entries: seq<Entry>): Bytes
    requires AllFit(entries)
  {
    if entries == [] then []
    else EncodeEntries(entries[..|entries| - 1]) + EncodeAll(EntryFields(entries[|entries| - 1]))
  }

  /** The packet `BroadcastRoomInformation` sends. */
  function EncodeInformation(info: RoomInfo, entries: seq<Entry>): Bytes
    requires Fits(HeaderFields(info, |entries|)) && AllFit(entries)
  {
    IdFits(ID_ROOM_INFORMATION);
    EncodeFirst(IdField(ID_ROOM_INFORMATION), HeaderFields(info, |entries|));
    EncodeAll([IdField(ID_ROOM_INFORMATION)] + HeaderFields(info, |entries|)) + EncodeEntries(entries)
  }

  datatype EntriesRead = EntriesRead(entries: seq<Entry>, cursor: Cursor)

  function DecodeEntries(count: nat, c: Cursor, blank: Kind -> Value): EntriesRead {
    if count == 0 then EntriesRead([], c)
    else
      var front := DecodeEntries(count - 1, c, blank);
      var r := DecodeAll(ENTRY_KINDS, front.cursor, blank);
      EntriesRead(front.entries + [EntryFrom(r.values)], r.cursor)
  }

  /** What `HandleRoomInformationPacket` reads. */
  function ParseInformation(data: Bytes, blank: Kind -> Value): EntriesRead {
    var header := DecodeAll(HEADER_KINDS, Cursor(data, 1, true), blank);
    DecodeEntries(ToNat(header.values[6]), header.cursor, blank)
  }

  lemma EntryReadsBack(e: Entry, c: Cursor, blank: Kind -> Value)
    requires Fits(EntryFields(e)) && At(c, EncodeAll(EntryFields(e)))
    ensures var r := DecodeAll(ENTRY_KINDS, c, blank);
            EntryFrom(r.values) == e && r.cursor == Past(c, |EncodeAll(EntryFields(e))|)
  {
    var fields := EntryFields(e);
    assert KindsOf(fields) == ENTRY_KINDS;
    EntryValues(e);
    IpBack(e.fakeIp);
    hide EncodeAll, DecodeAll, LengthsFit, HasShape, ToIp, FromIp, At;
    AllReadBack(fields, c, blank);
  }

  lemma EntryValues(e: Entry)
    ensures ValuesOf(EntryFields(e)) ==
      [Text(e.nickname), FromIp(e.fakeIp), Text(e.game.name), Number(e.game.id), Text(e.game.version),
       Text(e.username), Text(e.displayName), Text(e.avatarUrl)]
  {
    hide FromIp;
  }

  lemma {:induction false} EntriesReadBack(entries: seq<Entry>, c: Cursor, blank: Kind -> Value)
    requires AllFit(entries) && At(c, EncodeEntries(entries))
    ensures DecodeEntries(|entries|, c, blank) == EntriesRead(entries, Past(c, |EncodeEntries(entries)|))
  {
    hide EncodeAll, DecodeAll, LengthsFit, HasShape, EntryFields, EntryFrom, At;
    if entries == [] {
      assert Past(c, 0) == c;
    } else {
      var front, last := entries[..|entries| - 1], entries[|entries| - 1];
      LastFits(entries);
      hide Past, EncodeEntries, DecodeEntries, AllFit;
      AtSplit(c, EncodeEntries(front), EncodeAll(EntryFields(last)));
      var middle := Past(c, |EncodeEntries(front)|);
      EntriesReadBack(front, c, blank);
      EntryReadsBack(last, middle, blank);
      DecodeLastEntry(front, last, c, middle, blank);
      PastTwice(c, |EncodeEntries(front)|, |EncodeAll(EntryFields(last))|);
      assert front + [last] == entries;
    }
  }

  lemma LastFits(entries: seq<Entry>)
    requires entries != [] && AllFit(entries)
    ensures AllFit(entries[..|entries| - 1]) && Fits(EntryFields(entries[|entries| - 1]))
    ensures EncodeEntries(entries)
      == EncodeEntries(entries[..|entries| - 1]) + EncodeAll(EntryFields(entries[|entries| - 1]))
  {
    hide EncodeAll, LengthsFit, HasShape, EntryFields;
  }

  lemma DecodeLastEntry(front: seq<Entry>, last: Entry, c: Cursor, middle: Cursor, blank: Kind -> Value)
    requires DecodeEntries(|front|, c, blank) == EntriesRead(front, middle)
    requires EntryFrom(DecodeAll(ENTRY_KINDS, middle, blank).values) == last
    ensures DecodeEntries(|front| + 1, c, blank)
      == EntriesRead(front + [last], DecodeAll(ENTRY_KINDS, middle, blank).cursor)
  {
    hide DecodeAll, EntryFrom;
  }

  /** A client reads out of room information exactly the entries the server put in, and all of
      the packet. */
  lemma InformationArrives(info: RoomInfo, entries: seq<Entry>, blank: Kind -> Value)
    requires Fits(HeaderFields(info, |entries|)) && AllFit(entries)
    ensures var data := EncodeInformation(info, entries);
            var r := ParseInformation(data, blank);
            r.entries == entries && r.cursor.valid && EndOfPacket(r.cursor)
  {
    var header := HeaderFields(info, |entries|);
    assert KindsOf(header) == HEADER_KINDS;
    assert ValuesOf(header)[6] == Number(|entries|);
    hide EncodeAll, DecodeAll, LengthsFit, HasShape, EncodeEntries, DecodeEntries, AllFit, Fits, HeaderFields, At,
         KindsOf;
    PastId(ID_ROOM_INFORMATION, header, EncodeEntries(entries));
    var c := Cursor(EncodeInformation(info, entries), 1, true);
    AtSplit(c, EncodeAll(header), EncodeEntries(entries));
    AllReadBack(header, c, blank);
    EntriesReadBack(entries, Past(c, |EncodeAll(header)|), blank);
    InformationLength(info, entries);
  }

  lemma InformationLength(info: RoomInfo, entries: seq<Entry>)
    requires Fits(HeaderFields(info, |entries|)) && AllFit(entries)
    ensures |EncodeInformation(info, entries)|
      == 1 + |EncodeAll(HeaderFields(info, |entries|))| + |EncodeEntries(entries)|
  {
    IdFits(ID_ROOM_INFORMATION);
    hide Encode, EncodeAll, LengthsFit, HasShape, EncodeEntries, AllFit, HeaderFields;
    EncodeFirst(IdField(ID_ROOM_INFORMATION), HeaderFields(info, |entries|));
  }
}
