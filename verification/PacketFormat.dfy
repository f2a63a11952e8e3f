/** What the overloads of `Packet::Write` put into a packet and what those of `Packet::Read`
    take out of it (src/network/packet.cpp, src/network/packet.h). */
module PacketFormat {
  import opened Bytes
  import opened ByteOrder

  /** The types a packet can hold. Floating-point numbers travel as their bytes in memory. */
  datatype Kind =
    | FlagKind
    | NumberKind(width: Width, signed: bool)
    | FloatKind(double: bool)
    | TextKind
    | VectorKind(element: Kind)
    | ArrayKind(count: nat, element: Kind)

  datatype Width = W8 | W16 | W32 | W64

  datatype Value =
    | Flag(b: bool)
    | Number(n: int)
    | Float(bytes: Bytes)
    | Text(text: Bytes)
    | Items(items: seq<Value>)

  /** What the reading members look at and change. */
  datatype Cursor = Cursor(data: Bytes, pos: nat, valid: bool)

  datatype Reading = Reading(value: Value, cursor: Cursor)

  const TWO_32 := 0x1_0000_0000

  function Size(w: Width): nat {
    match w case W8 => 1 case W16 => 2 case W32 => 4 case W64 => 8
  }

  /** The values of an unsigned or two's complement type. */
  predicate InRange(n: int, w: Width, signed: bool) {
    if signed then -(Power(Size(w)) / 2) <= n < Power(Size(w)) / 2 else 0 <= n < Power(Size(w))
  }

  /** The same bits read as unsigned, and back. */
  function Unsigned(n: int, w: Width): nat {
    n % Power(Size(w))
  }

  function AsSigned(u: nat, w: Width, signed: bool): int {
    if signed && u >= Power(Size(w)) / 2 then u - Power(Size(w)) else u
  }

  function FloatSize(double: bool): nat {
    if double then 8 else 4
  }

  /** Values of a C++ type; lengths may be anything. */
  predicate HasShape(v: Value, k: Kind)
    decreases k
  {
    match k
    case FlagKind => v.Flag?
    case NumberKind(w, signed) => v.Number? && InRange(v.n, w, signed)
    case FloatKind(double) => v.Float? && |v.bytes| == FloatSize(double)
    case TextKind => v.Text?
    case VectorKind(e) => v.Items? && forall i :: 0 <= i < |v.items| ==> HasShape(v.items[i], e)
    case ArrayKind(count, e) => v.Items? && |v.items| == count && forall i :: 0 <= i < |v.items| ==>
      HasShape(v.items[i], e)
  }

  /** Every length fits the 32-bit length field. */
  predicate LengthsFit(v: Value, k: Kind)
    decreases k
  {
    match k
    case TextKind => v.Text? && |v.text| < TWO_32
    case VectorKind(e) => v.Items? && |v.items| < TWO_32 && forall i :: 0 <= i < |v.items| ==> LengthsFit(v.items[i], e)
    case ArrayKind(_, e) => v.Items? && forall i :: 0 <= i < |v.items| ==> LengthsFit(v.items[i], e)
    case _ => true
  }

  /** Values that can be written without losing anything. */
  predicate HasKind(v: Value, k: Kind) {
    HasShape(v, k) && LengthsFit(v, k)
  }

  predicate AllHave(items: seq<Value>, e: Kind) {
    forall i :: 0 <= i < |items| ==> HasKind(items[i], e)
  }

  // ----- writing

  function Encode(v: Value, k: Kind): Bytes
    requires HasShape(v, k)
    decreases k, 0
  {
    match k
    case FlagKind => [if v.b then 1 else 0]
    case NumberKind(w, signed) => BigEndian(Unsigned(v.n, w), Size(w))
    case FloatKind(double) => v.bytes
    case TextKind => BigEndian(|v.text| % TWO_32, 4) + v.text[..|v.text| % TWO_32]
    case VectorKind(e) => BigEndian(|v.items| % TWO_32, 4) + EncodeItems(v.items, e)
    case ArrayKind(count, e) => EncodeItems(v.items, e)
  }

  function EncodeItems(items: seq<Value>, e: Kind): Bytes
    requires forall i :: 0 <= i < |items| ==> HasShape(items[i], e)
    decreases e, 1, |items|
  {
    if items == [] then []
    else EncodeItems(items[..|items| - 1], e) + Encode(items[|items| - 1], e)
  }

  // ----- reading

  /** `CheckSize`. */
  function Check(c: Cursor, size: nat): Cursor {
    c.(valid := c.valid && c.pos + size <= |c.data|)
  }

  /** `Read(void*, size)`: the cursor moves only if there is enough left. */
  function Advance(c: Cursor, size: nat): Cursor {
    var checked := Check(c, size);
    if checked.valid then checked.(pos := c.pos + size) else checked
  }

  function Taken(c: Cursor, size: nat): Bytes
    requires Check(c, size).valid
  {
    c.data[c.pos..c.pos + size]
  }

  /** A number of two to eight bytes; nothing read leaves zero. */
  function ReadWord(c: Cursor, size: nat): nat {
    if Check(c, size).valid then FromBig(Taken(c, size)) else 0
  }

  /** One overload of `Read`. `current` is what the variable holds, `blank` what a variable of
      a type holds that was declared without a value. */
  function Decode(k: Kind, c: Cursor, current: Value, blank: Kind -> Value): Reading
    decreases k, 0, 0
  {
    match k
    case FlagKind =>
      Reading(if Check(c, 1).valid then Flag(Taken(c, 1)[0] != 0) else current, Advance(c, 1))
    case NumberKind(w, signed) =>
      Reading(if w == W8 && !Check(c, 1).valid then current else Number(AsSigned(ReadWord(c, Size(w)), w, signed)),
              Advance(c, Size(w)))
    case FloatKind(double) =>
      Reading(if Check(c, FloatSize(double)).valid then Float(Taken(c, FloatSize(double))) else current,
              Advance(c, FloatSize(double)))
    case TextKind => DecodeText(ReadWord(c, 4), Advance(c, 4))
    case VectorKind(e) => DecodeItems(ReadWord(c, 4), e, Advance(c, 4), blank)
    case ArrayKind(count, e) => DecodeItems(count, e, c, blank)
  }

  function DecodeText(length: nat, c: Cursor): Reading {
    if length == 0 then Reading(Text([]), c)
    else Reading(Text(if Check(c, length).valid then Taken(c, length) else []), Advance(c, length))
  }

  function DecodeItems(count: nat, e: Kind, c: Cursor, blank: Kind -> Value): (r: Reading)
    ensures r.value.Items? && |r.value.items| == count
    decreases e, 1, count
  {
    if count == 0 then Reading(Items([]), c)
    else
      var front := DecodeItems(count - 1, e, c, blank);
      var last := Decode(e, front.cursor, blank(e), blank);
      Reading(Items(front.value.items + [last.value]), last.cursor)
  }

  // ----- whole packets

  datatype Field = Field(kind: Kind, value: Value)

  function EncodeAll(fields: seq<Field>): Bytes
    requires forall i :: 0 <= i < |fields| ==> HasShape(fields[i].value, fields[i].kind)
  {
    if fields == [] then []
    else EncodeAll(fields[..|fields| - 1]) + Encode(fields[|fields| - 1].value, fields[|fields| - 1].kind)
  }

  datatype Readings = Readings(values: seq<Value>, cursor: Cursor)

  /** Reading variables of the given types, in order, from one packet. */
  function DecodeAll(kinds: seq<Kind>, c: Cursor, blank: Kind -> Value): (r: Readings)
    ensures |r.values| == |kinds|
  {
    if kinds == [] then Readings([], c)
    else
      var front := DecodeAll(kinds[..|kinds| - 1], c, blank);
      var last := Decode(kinds[|kinds| - 1], front.cursor, blank(kinds[|kinds| - 1]), blank);
      Readings(front.values + [last.value], last.cursor)
  }

  function EndOfPacket(c: Cursor): bool {
    c.pos >= |c.data|
  }

  // ----- an invalid packet stays invalid

  lemma {:induction false} StaysInvalid(k: Kind, c: Cursor, current: Value, blank: Kind -> Value)
    requires !c.valid
    ensures Decode(k, c, current, blank).cursor == c
    decreases k, 0, 0
  {
    match k
    case VectorKind(e) => ItemsStayInvalid(ReadWord(c, 4), e, c, blank);
    case ArrayKind(count, e) => ItemsStayInvalid(count, e, c, blank);
    case _ =>
  }

  lemma {:induction false} ItemsStayInvalid(count: nat, e: Kind, c: Cursor, blank: Kind -> Value)
    requires !c.valid
    ensures DecodeItems(count, e, c, blank).cursor == c
    decreases e, 1, count
  {
    if count > 0 {
      ItemsStayInvalid(count - 1, e, c, blank);
      StaysInvalid(e, c, blank(e), blank);
    }
  }

  /** The first read that fails is the last that moves the position. */
  lemma {:induction false} AllStayInvalid(kinds: seq<Kind>, c: Cursor, blank: Kind -> Value)
    requires !c.valid
    ensures DecodeAll(kinds, c, blank).cursor == c
  {
    if kinds != [] {
      AllStayInvalid(kinds[..|kinds| - 1], c, blank);
      StaysInvalid(kinds[|kinds| - 1], c, blank(kinds[|kinds| - 1]), blank);
    }
  }

  // ----- what was written is read back

  /** `c` stands in front of `bytes`. */
  predicate At(c: Cursor, bytes: Bytes) {
    c.valid && c.pos + |bytes| <= |c.data| && c.data[c.pos..c.pos + |bytes|] == bytes
  }

  function Past(c: Cursor, n: nat): Cursor {
    c.(pos := c.pos + n)
  }

  lemma AtSplit(c: Cursor, a: Bytes, b: Bytes)
    requires At(c, a + b)
    ensures At(c, a) && At(Past(c, |a|), b)
  {
    var all := c.data[c.pos..c.pos + |a + b|];
    assert c.data[c.pos..c.pos + |a|] == all[..|a|] == a;
    assert c.data[c.pos + |a|..c.pos + |a| + |b|] == all[|a|..] == b;
  }

  lemma WordReads(c: Cursor, n: nat, size: nat)
    requires n < Power(size) && At(c, BigEndian(n, size))
    ensures Check(c, size).valid && ReadWord(c, size) == n && Advance(c, size) == Past(c, size)
  {
    BigRoundTrip(n, size);
  }

  lemma SignedBack(n: int, w: Width, signed: bool)
    requires InRange(n, w, signed)
    ensures Unsigned(n, w) < Power(Size(w)) && AsSigned(Unsigned(n, w), w, signed) == n
  {
    var p := Power(Size(w));
    EvenPower(Size(w));
    hide Power;
    if n < 0 {
      WrapsOnce(n, p);
    } else {
      NoWrap(n, p);
    }
  }

  lemma EvenPower(w: nat)
    requires w > 0
    ensures Power(w) % 2 == 0
  {
    var half := 128 * Power(w - 1);
    assert Power(w) == 2 * half;
  }

  lemma WrapsOnce(n: int, p: int)
    requires p > 0 && -p <= n < 0
    ensures n % p == n + p
  {
  }

  lemma NoWrap(n: int, p: int)
    requires 0 <= n < p
    ensures n % p == n
  {
  }

  lemma {:induction false} ValueReadsBack(v: Value, k: Kind, c: Cursor, current: Value, blank: Kind -> Value)
    requires HasKind(v, k) && At(c, Encode(v, k))
    ensures Decode(k, c, current, blank) == Reading(v, Past(c, |Encode(v, k)|))
    decreases k, 0, 0
  {
    hide Power, BigEndian, EncodeItems, DecodeItems, FromBig, Unsigned, AsSigned;
    match k
    case FlagKind =>
    case NumberKind(w, signed) =>
      SignedBack(v.n, w, signed);
      WordReads(c, Unsigned(v.n, w), Size(w));
    case FloatKind(double) =>
    case TextKind => TextReadsBack(v.text, c);
    case VectorKind(e) => VectorReadsBack(v.items, e, c, blank);
    case ArrayKind(count, e) => ItemsReadBack(v.items, e, c, blank);
  }

  lemma {:induction false} VectorReadsBack(items: seq<Value>, e: Kind, c: Cursor, blank: Kind -> Value)
    requires |items| < TWO_32 && AllHave(items, e)
    requires At(c, BigEndian(|items|, 4) + EncodeItems(items, e))
    ensures DecodeItems(ReadWord(c, 4), e, Advance(c, 4), blank) ==
            Reading(Items(items), Past(c, 4 + |EncodeItems(items, e)|))
    decreases e, 2, 0
  {
    PowerFour();
    hide Power, BigEndian, EncodeItems, DecodeItems, LengthsFit, HasShape;
    AtSplit(c, BigEndian(|items|, 4), EncodeItems(items, e));
    WordReads(c, |items|, 4);
    ItemsReadBack(items, e, Past(c, 4), blank);
  }

  lemma TextReadsBack(t: Bytes, c: Cursor)
    requires |t| < TWO_32 && At(c, BigEndian(|t|, 4) + t)
    ensures DecodeText(ReadWord(c, 4), Advance(c, 4)) == Reading(Text(t), Past(c, 4 + |t|))
  {
    PowerFour();
    hide Power, BigEndian, FromBig;
    AtSplit(c, BigEndian(|t|, 4), t);
    WordReads(c, |t|, 4);
  }

  lemma {:induction false} ItemsReadBack(items: seq<Value>, e: Kind, c: Cursor, blank: Kind -> Value)
    requires AllHave(items, e)
    requires At(c, EncodeItems(items, e))
    ensures DecodeItems(|items|, e, c, blank) == Reading(Items(items), Past(c, |EncodeItems(items, e)|))
    decreases e, 1, |items|
  {
    hide Decode, Encode, LengthsFit, HasShape;
    if items == [] {
      assert c == Past(c, 0);
    } else {
      var front, last := items[..|items| - 1], items[|items| - 1];
      EncodeLast(items, e);
      assert HasKind(last, e);
      hide DecodeItems, EncodeItems, At, AllHave, Past;
      AtSplit(c, EncodeItems(front, e), Encode(last, e));
      var middle := Past(c, |EncodeItems(front, e)|);
      ItemsReadBack(front, e, c, blank);
      ValueReadsBack(last, e, middle, blank(e), blank);
      DecodeLast(front, last, e, c, middle, Past(middle, |Encode(last, e)|), blank);
      PastTwice(c, |EncodeItems(front, e)|, |Encode(last, e)|);
      assert front + [last] == items;
    }
  }

  lemma PastTwice(c: Cursor, m: nat, n: nat)
    ensures Past(Past(c, m), n) == Past(c, m + n)
  {
  }

  lemma EncodeLast(items: seq<Value>, e: Kind)
    requires items != [] && AllHave(items, e)
    ensures AllHave(items[..|items| - 1], e)
    ensures EncodeItems(items, e) == EncodeItems(items[..|items| - 1], e) + Encode(items[|items| - 1], e)
  {
    hide Encode, LengthsFit, HasShape;
  }

  lemma DecodeLast(front: seq<Value>, last: Value, e: Kind, c: Cursor, middle: Cursor, end: Cursor,
                   blank: Kind -> Value)
    requires DecodeItems(|front|, e, c, blank) == Reading(Items(front), middle)
    requires Decode(e, middle, blank(e), blank) == Reading(last, end)
    ensures DecodeItems(|front| + 1, e, c, blank) == Reading(Items(front + [last]), end)
  {
    hide Decode;
  }

  predicate Fits(fields: seq<Field>) {
    forall i :: 0 <= i < |fields| ==> HasKind(fields[i].value, fields[i].kind)
  }

  function KindsOf(fields: seq<Field>): (r: seq<Kind>)
    ensures |r| == |fields|
  {
    seq(|fields|, i requires 0 <= i < |fields| => fields[i].kind)
  }

  function ValuesOf(fields: seq<Field>): (r: seq<Value>)
    ensures |r| == |fields|
  {
    seq(|fields|, i requires 0 <= i < |fields| => fields[i].value)
  }

  lemma {:induction false} AllReadBack(fields: seq<Field>, c: Cursor, blank: Kind -> Value)
    requires Fits(fields) && At(c, EncodeAll(fields))
    ensures DecodeAll(KindsOf(fields), c, blank) == Readings(ValuesOf(fields), Past(c, |EncodeAll(fields)|))
  {
    hide Decode, Encode;
    if fields != [] {
      var front, last := fields[..|fields| - 1], fields[|fields| - 1];
      AtSplit(c, EncodeAll(front), Encode(last.value, last.kind));
      AllReadBack(front, c, blank);
      ValueReadsBack(last.value, last.kind, Past(c, |EncodeAll(front)|), blank(last.kind), blank);
      assert KindsOf(fields)[..|fields| - 1] == KindsOf(front);
      assert ValuesOf(fields) == ValuesOf(front) + [last.value];
    }
  }

  /** Reading a written packet with the same types gives the written values, leaves it valid
      and ends at its end. */
  lemma RoundTrip(fields: seq<Field>, blank: Kind -> Value)
    requires Fits(fields)
    ensures var r := DecodeAll(KindsOf(fields), Cursor(EncodeAll(fields), 0, true), blank);
            r.values == ValuesOf(fields) && r.cursor.valid && EndOfPacket(r.cursor)
  {
    var c := Cursor(EncodeAll(fields), 0, true);
    assert c.data[0..|c.data|] == c.data;
    AllReadBack(fields, c, blank);
  }

  // ----- a packet cut short is noticed

  /** More bytes behind the cursor's data. */
  function Longer(c: Cursor, more: Bytes): Cursor {
    c.(data := c.data + more)
  }

  predicate Inside(c: Cursor) {
    c.valid && c.pos <= |c.data|
  }

  lemma AdvanceLonger(c: Cursor, size: nat, more: Bytes)
    requires Advance(c, size).valid
    ensures Check(c, size).valid && Check(Longer(c, more), size).valid
    ensures Taken(Longer(c, more), size) == Taken(c, size)
    ensures Advance(Longer(c, more), size) == Longer(Advance(c, size), more)
    ensures Inside(c) && Inside(Advance(c, size))
  {
    assert (c.data + more)[c.pos..c.pos + size] == c.data[c.pos..c.pos + size];
  }

  /** A read that succeeds does not depend on what follows. */
  lemma {:induction false} DecodeLonger(k: Kind, c: Cursor, current: Value, blank: Kind -> Value, more: Bytes)
    requires c.pos <= |c.data| && Decode(k, c, current, blank).cursor.valid
    ensures var r := Decode(k, c, current, blank);
            && Decode(k, Longer(c, more), current, blank) == Reading(r.value, Longer(r.cursor, more))
            && Inside(r.cursor) && r.cursor.data == c.data
    decreases k, 0, 0
  {
    match k
    case FlagKind => AdvanceLonger(c, 1, more);
    case NumberKind(w, signed) => AdvanceLonger(c, Size(w), more);
    case FloatKind(double) => AdvanceLonger(c, FloatSize(double), more);
    case TextKind => TextLonger(c, more);
    case VectorKind(e) =>
      if Advance(c, 4).valid {
        AdvanceLonger(c, 4, more);
      } else {
        ItemsStayInvalid(ReadWord(c, 4), e, Advance(c, 4), blank);
      }
      ItemsLonger(ReadWord(c, 4), e, Advance(c, 4), blank, more);
    case ArrayKind(count, e) => ItemsLonger(count, e, c, blank, more);
  }

  lemma TextLonger(c: Cursor, more: Bytes)
    requires c.pos <= |c.data| && DecodeText(ReadWord(c, 4), Advance(c, 4)).cursor.valid
    ensures var r := DecodeText(ReadWord(c, 4), Advance(c, 4));
            && DecodeText(ReadWord(Longer(c, more), 4), Advance(Longer(c, more), 4))
              == Reading(r.value, Longer(r.cursor, more))
            && Inside(r.cursor) && r.cursor.data == c.data
  {
    AdvanceLonger(c, 4, more);
    var length := ReadWord(c, 4);
    if length > 0 {
      AdvanceLonger(Advance(c, 4), length, more);
    }
  }

  lemma {:induction false} ItemsLonger(count: nat, e: Kind, c: Cursor, blank: Kind -> Value, more: Bytes)
    requires c.pos <= |c.data| && DecodeItems(count, e, c, blank).cursor.valid
    ensures var r := DecodeItems(count, e, c, blank);
            && DecodeItems(count, e, Longer(c, more), blank) == Reading(r.value, Longer(r.cursor, more))
            && Inside(r.cursor) && r.cursor.data == c.data
    decreases e, 1, count
  {
    hide Decode;
    if count > 0 {
      var front := DecodeItems(count - 1, e, c, blank);
      if !front.cursor.valid {
        StaysInvalid(e, front.cursor, blank(e), blank);
      }
      ItemsLonger(count - 1, e, c, blank, more);
      DecodeLonger(e, front.cursor, blank(e), blank, more);
    }
  }

  lemma {:induction false} AllLonger(kinds: seq<Kind>, c: Cursor, blank: Kind -> Value, more: Bytes)
    requires c.pos <= |c.data| && DecodeAll(kinds, c, blank).cursor.valid
    ensures var r := DecodeAll(kinds, c, blank);
            && DecodeAll(kinds, Longer(c, more), blank) == Readings(r.values, Longer(r.cursor, more))
            && Inside(r.cursor) && r.cursor.data == c.data
  {
    hide Decode;
    if kinds != [] {
      var k := kinds[|kinds| - 1];
      var front := DecodeAll(kinds[..|kinds| - 1], c, blank);
      if !front.cursor.valid {
        StaysInvalid(k, front.cursor, blank(k), blank);
      }
      AllLonger(kinds[..|kinds| - 1], c, blank, more);
      DecodeLonger(k, front.cursor, blank(k), blank, more);
    }
  }

  /** Reading any strict prefix of a written packet with the same types ends invalid. */
  lemma PrefixIsInvalid(fields: seq<Field>, n: nat, blank: Kind -> Value)
    requires Fits(fields) && n < |EncodeAll(fields)|
    ensures !DecodeAll(KindsOf(fields), Cursor(EncodeAll(fields)[..n], 0, true), blank).cursor.valid
  {
    hide EncodeAll, DecodeAll;
    var all := EncodeAll(fields);
    var c := Cursor(all[..n], 0, true);
    if DecodeAll(KindsOf(fields), c, blank).cursor.valid {
      AllLonger(KindsOf(fields), c, blank, all[n..]);
      assert all[..n] + all[n..] == all;
      RoundTrip(fields, blank);
    }
  }

  // ----- lengths that do not fit

  /** A text is read back exactly when its length fits the length field. */
  lemma TextKept(t: Bytes, blank: Kind -> Value)
    ensures Decode(TextKind, Cursor(Encode(Text(t), TextKind), 0, true), Text([]), blank).value == Text(t)
            <==> |t| < TWO_32
  {
    var cut := t[..|t| % TWO_32];
    var c := Cursor(Encode(Text(t), TextKind), 0, true);
    assert c.data == BigEndian(|cut|, 4) + cut;
    assert c.data[0..|c.data|] == c.data;
    TextReadsBack(cut, c);
    if |t| < TWO_32 {
      assert cut == t;
    }
  }
}
