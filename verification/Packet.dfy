/** The class `Packet` of src/network/packet.h and src/network/packet.cpp. */
module Packet {
  import opened Bytes
  import opened ByteOrder
  import opened PacketFormat
  import opened Sequences

  class Packet {
    var data: Bytes
    var read_pos: nat
    var is_valid: bool

    constructor ()
      ensures View() == Cursor([], 0, true)
    {
      data, read_pos, is_valid := [], 0, true;
    }

    ghost function View(): Cursor
      reads this
    {
      Cursor(data, read_pos, is_valid)
    }

    method Clear()
      modifies this
      ensures View() == Cursor([], 0, true)
    {
      data, read_pos, is_valid := [], 0, true;
    }

    method Append(bytes: Bytes)
      modifies this`data
      ensures data == old(data) + bytes
    {
      if |bytes| > 0 {
        data := data + bytes;
      }
    }

    method IgnoreBytes(length: nat)
      modifies this`read_pos
      ensures read_pos == old(read_pos) + length
    {
      read_pos := read_pos + length;
    }

    method AtEnd() returns (end: bool)
      ensures end == EndOfPacket(View())
    {
      end := read_pos >= |data|;
    }

    method CheckSize(size: nat) returns (ok: bool)
      modifies this`is_valid
      ensures View() == Check(old(View()), size) && ok == is_valid
    {
      is_valid := is_valid && read_pos + size <= |data|;
      ok := is_valid;
    }

    /** The bytes a variable of `size` bytes holds afterwards: untouched if too few are left. */
    method ReadBytes(size: nat, current: Bytes) returns (bytes: Bytes)
      modifies this`is_valid, this`read_pos
      ensures View() == Advance(old(View()), size)
      ensures bytes == if Check(old(View()), size).valid then Taken(old(View()), size) else current
    {
      var ok := CheckSize(size);
      if !ok {
        return current;
      }
      bytes := data[read_pos..read_pos + size];
      read_pos := read_pos + size;
    }

    // ----- numbers

    /** Host order to network order or back, by the conversion for the width. */
    static method Convert(u: nat, w: Width) returns (r: nat)
      requires u < Power(Size(w))
      ensures LittleEndian(r, Size(w)) == BigEndian(u, Size(w))
      ensures r == Swap(u, Size(w))
    {
      SwapIsBig(u, Size(w));
      match w
      case W8 =>
        r := u;
        assert Swap(u, 1) == u by { OneByte(u); }
      case W64 =>
        Swap64IsSwap(u);
        r := Swap64(u);
      case _ => r := Swap(u, Size(w));
    }

    static lemma OneByte(u: nat)
      requires u < Power(1)
      ensures Swap(u, 1) == u
    {
      assert Power(0) == 1;
      assert LittleEndian(u, 1) == [u];
      assert [u][1..] == [];
      assert Reversed([u]) == [u];
      assert FromLittle([u]) == u + 256 * FromLittle([]);
    }

    method WriteNumber(n: int, w: Width)
      modifies this`data
      ensures data == old(data) + BigEndian(Unsigned(n, w), Size(w))
    {
      hide LittleEndian, BigEndian, Swap, Swap64, Power;
      var toWrite := Convert(Unsigned(n, w), w);
      Append(LittleEndian(toWrite, Size(w)));
    }

    /** Numbers of more than one byte are zero when nothing could be read. */
    method ReadNumber(w: Width) returns (u: nat)
      modifies this`is_valid, this`read_pos
      ensures View() == Advance(old(View()), Size(w))
      ensures u == ReadWord(old(View()), Size(w))
    {
      var zero: Bytes := seq(Size(w), _ => 0);
      var bytes := ReadBytes(Size(w), zero);
      FromLittleBound(bytes);
      SwapReads(bytes);
      if !is_valid {
        ZeroReads(Size(w));
      }
      u := Convert(FromLittle(bytes), w);
    }

    static lemma {:induction false} ZeroReads(n: nat)
      ensures FromBig(seq(n, _ => 0)) == 0
    {
      if n > 0 {
        ZeroReads(n - 1);
        assert seq<Byte>(n, _ => 0)[..n - 1] == seq<Byte>(n - 1, _ => 0);
      }
    }

    // ----- strings

    method WriteText(text: Bytes)
      modifies this`data
      ensures data == old(data) + Encode(Text(text), TextKind)
    {
      hide BigEndian, Power;
      var length := |text| % TWO_32;
      FitsWord(length);
      WriteNumber(length, W32);
      if length > 0 {
        Append(text[..length]);
      }
      assert old(data) + BigEndian(length, 4) + text[..length] == old(data) + (BigEndian(length, 4) + text[..length]);
      assert length == 0 ==> BigEndian(length, 4) + text[..length] == BigEndian(length, 4);
    }

    static lemma FitsWord(length: nat)
      requires length < TWO_32
      ensures Unsigned(length, W32) == length
    {
      PowerFour();
      hide Power;
      NoWrap(length, Power(4));
    }

    method ReadText() returns (text: Bytes)
      modifies this`is_valid, this`read_pos
      ensures Reading(Text(text), View()) == DecodeText(ReadWord(old(View()), 4), Advance(old(View()), 4))
    {
      hide FromBig;
      var length := ReadNumber(W32);
      text := [];
      if length > 0 {
        text := ReadBytes(length, []);
      }
    }

    // ----- the templates

    /** The overload of `Write` for a type. */
    method WriteValue(v: Value, k: Kind)
      requires HasShape(v, k)
      modifies this`data
      ensures data == old(data) + Encode(v, k)
      decreases k, 0
    {
      hide BigEndian, Power, EncodeItems, Unsigned;
      match k
      case FlagKind => Append([if v.b then 1 else 0]);
      case NumberKind(w, signed) => WriteNumber(v.n, w);
      case FloatKind(double) => Append(v.bytes);
      case TextKind => WriteText(v.text);
      case VectorKind(e) => WriteVector(v.items, e);
      case ArrayKind(count, e) => WriteItems(v.items, e);
    }

    method WriteVector(items: seq<Value>, e: Kind)
      requires forall i :: 0 <= i < |items| ==> HasShape(items[i], e)
      modifies this`data
      ensures data == old(data) + (BigEndian(|items| % TWO_32, 4) + EncodeItems(items, e))
      decreases e, 2
    {
      hide BigEndian, Power, EncodeItems, Unsigned, HasShape;
      FitsWord(|items| % TWO_32);
      WriteNumber(|items| % TWO_32, W32);
      WriteItems(items, e);
    }

    method WriteItems(items: seq<Value>, e: Kind)
      requires forall i :: 0 <= i < |items| ==> HasShape(items[i], e)
      modifies this`data
      ensures data == old(data) + EncodeItems(items, e)
      decreases e, 1
    {
      hide HasShape, Encode;
      for i := 0 to |items|
        invariant data == old(data) + EncodeItems(items[..i], e)
      {
        WriteValue(items[i], e);
        assert items[..i + 1][..i] == items[..i];
      }
      assert items[..|items|] == items;
    }

    /** The overload of `Read` for a type, on a variable that holds `current`. */
    method ReadValue(k: Kind, current: Value, blank: Kind -> Value) returns (v: Value)
      modifies this`is_valid, this`read_pos
      ensures Reading(v, View()) == Decode(k, old(View()), current, blank)
      decreases k, 0, 0
    {
      hide FromBig, Power, DecodeItems;
      match k
      case FlagKind =>
        var ok, b := ReadByte();
        v := if ok then Flag(b != 0) else current;
      case NumberKind(w, signed) =>
        if w == W8 {
          v := ReadSmall(signed, current);
        } else {
          var u := ReadNumber(w);
          v := Number(AsSigned(u, w, signed));
        }
      case FloatKind(double) =>
        var bytes := ReadBytes(FloatSize(double), []);
        v := if is_valid then Float(bytes) else current;
      case TextKind =>
        var text := ReadText();
        v := Text(text);
      case VectorKind(e) =>
        var size := ReadNumber(W32);
        v := ReadItems(size, e, blank);
      case ArrayKind(count, e) => v := ReadItems(count, e, blank);
    }

    method ReadByte() returns (ok: bool, b: Byte)
      modifies this`is_valid, this`read_pos
      ensures View() == Advance(old(View()), 1)
      ensures ok == Check(old(View()), 1).valid
      ensures ok ==> b == Taken(old(View()), 1)[0]
    {
      var bytes := ReadBytes(1, [0]);
      ok, b := is_valid, bytes[0];
    }

    /** `Read(s8&)` and `Read(u8&)` leave the variable alone when nothing could be read. */
    method ReadSmall(signed: bool, current: Value) returns (v: Value)
      modifies this`is_valid, this`read_pos
      ensures View() == Advance(old(View()), 1)
      ensures v == if Check(old(View()), 1).valid then Number(AsSigned(ReadWord(old(View()), 1), W8, signed))
        else current
    {
      var ok, b := ReadByte();
      assert [b][..0] == [];
      assert FromBig([b]) == FromBig([]) * 256 + b;
      assert ok ==> Taken(old(View()), 1) == [b];
      v := if ok then Number(AsSigned(b, W8, signed)) else current;
    }

    method ReadItems(count: nat, e: Kind, blank: Kind -> Value) returns (v: Value)
      modifies this`is_valid, this`read_pos
      ensures Reading(v, View()) == DecodeItems(count, e, old(View()), blank)
      decreases e, 1, 0
    {
      hide Decode;
      var items: seq<Value> := [];
      for i := 0 to count
        invariant data == old(data)
        invariant Reading(Items(items), View()) == DecodeItems(i, e, old(View()), blank)
      {
        var item := ReadValue(e, blank(e), blank);
        items := items + [item];
      }
      v := Items(items);
    }
  }

  /** A packet written field by field and read with the same types, both by the class. */
  method SendAndReceive(fields: seq<Field>, blank: Kind -> Value) returns (values: seq<Value>, p: Packet)
    requires Fits(fields)
    ensures fresh(p)
    ensures values == ValuesOf(fields) && p.is_valid && EndOfPacket(p.View())
  {
    hide Decode, Encode, LengthsFit, HasShape;
    p := new Packet();
    for i := 0 to |fields|
      invariant fresh(p) && p.View() == Cursor(EncodeAll(fields[..i]), 0, true)
    {
      p.WriteValue(fields[i].value, fields[i].kind);
      assert fields[..i + 1][..i] == fields[..i];
    }
    assert fields[..|fields|] == fields;
    ghost var kinds := KindsOf(fields);
    values := [];
    for i := 0 to |fields|
      invariant fresh(p)
      invariant Readings(values, p.View()) == DecodeAll(kinds[..i], Cursor(EncodeAll(fields), 0, true), blank)
    {
      var v := p.ReadValue(fields[i].kind, blank(fields[i].kind), blank);
      values := values + [v];
      assert kinds[..i + 1][..i] == kinds[..i];
    }
    assert kinds[..|fields|] == kinds;
    RoundTrip(fields, blank);
  }
}
