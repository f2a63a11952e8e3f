/** The byte format of `CacheWriter` and `CacheReader`
    (src/nxemu-loader/game_list_cache.cpp:165-277), for data of any shape built from 32-bit and
    64-bit numbers, byte strings, counted lists and fields that follow one another. */
module CacheFormat {
  import opened Bytes
  import opened ByteOrder

  datatype Schema =
    | U32Schema
    | U64Schema
    | BlobSchema
    | ListSchema(item: Schema)
    | PairSchema(first: Schema, second: Schema)

  datatype Value = Number(n: nat) | Blob(bytes: Bytes) | List(items: seq<Value>) | Pair(first: Value, second: Value)

  const TWO_32 := 0x1_0000_0000
  const TWO_64 := 0x1_0000_0000_0000_0000

  /** What `CacheReader` holds. */
  datatype Reader = Reader(data: Bytes, pos: nat, ok: bool)

  datatype Got = Got(value: Value, reader: Reader)

  predicate Has(v: Value, s: Schema)
    decreases s
  {
    match s
    case U32Schema => v.Number? && v.n < TWO_32
    case U64Schema => v.Number? && v.n < TWO_64
    case BlobSchema => v.Blob? && |v.bytes| < TWO_32
    case ListSchema(item) => v.List? && |v.items| < TWO_32 && forall i :: 0 <= i < |v.items| ==> Has(v.items[i], item)
    case PairSchema(a, b) => v.Pair? && Has(v.first, a) && Has(v.second, b)
  }

  function Encode(v: Value, s: Schema): Bytes
    requires Has(v, s)
    decreases s, 0
  {
    match s
    case U32Schema => LittleEndian(v.n, 4)
    case U64Schema => LittleEndian(v.n, 8)
    case BlobSchema => LittleEndian(|v.bytes|, 4) + v.bytes
    case ListSchema(item) => LittleEndian(|v.items|, 4) + EncodeItems(v.items, item)
    case PairSchema(a, b) => Encode(v.first, a) + Encode(v.second, b)
  }

  predicate AllHave(items: seq<Value>, item: Schema) {
    forall i :: 0 <= i < |items| ==> Has(items[i], item)
  }

  function EncodeItems(items: seq<Value>, item: Schema): Bytes
    requires AllHave(items, item)
    decreases item, 1, |items|
  {
    if items == [] then [] else EncodeItems(items[..|items| - 1], item) + Encode(items[|items| - 1], item)
  }

  // ----- reading

  /** `Raw`: nothing is read once something was missing. */
  predicate Enough(r: Reader, size: nat) {
    r.ok && r.pos + size <= |r.data|
  }

  function Raw(r: Reader, size: nat): Reader {
    if Enough(r, size) then r.(pos := r.pos + size) else r.(ok := false)
  }

  function Taken(r: Reader, size: nat): Bytes
    requires Enough(r, size)
  {
    r.data[r.pos..r.pos + size]
  }

  function Word(r: Reader, size: nat): nat {
    if Enough(r, size) then FromLittle(Taken(r, size)) else 0
  }

  /** `Length`, which also checks that that much is left. */
  function Length(r: Reader): (nat, Reader) {
    var length, r' := Word(r, 4), Raw(r, 4);
    if Enough(r', length) then (length, r') else (0, r'.(ok := false))
  }

  function Decode(s: Schema, r: Reader): Got
    decreases s, 0, 0
  {
    match s
    case U32Schema => Got(Number(Word(r, 4)), Raw(r, 4))
    case U64Schema => Got(Number(Word(r, 8)), Raw(r, 8))
    case BlobSchema => DecodeBlob(r)
    case ListSchema(item) => DecodeItems(Word(r, 4), item, Raw(r, 4))
    case PairSchema(a, b) =>
      var first := Decode(a, r);
      var second := Decode(b, first.reader);
      Got(Pair(first.value, second.value), second.reader)
  }

  function DecodeBlob(r: Reader): Got {
    var (length, r') := Length(r);
    Got(Blob(if Enough(r', length) then Taken(r', length) else []), Raw(r', length))
  }

  /** The counted loops stop at the first item that could not be read in full. */
  function DecodeItems(count: nat, item: Schema, r: Reader): (g: Got)
    ensures g.value.List? && |g.value.items| <= count
    decreases item, 1, count
  {
    if count == 0 then Got(List([]), r)
    else
      var front := DecodeItems(count - 1, item, r);
      if !front.reader.ok then front
      else
        var last := Decode(item, front.reader);
        Got(List(front.value.items + [last.value]), last.reader)
  }

  // ----- once something is missing

  lemma {:induction false} StaysBad(s: Schema, r: Reader)
    requires !r.ok
    ensures Decode(s, r).reader == r
    decreases s, 0, 0
  {
    match s
    case ListSchema(item) => ItemsStayBad(Word(r, 4), item, r);
    case PairSchema(a, b) =>
      StaysBad(a, r);
      StaysBad(b, r);
    case _ =>
  }

  lemma {:induction false} ItemsStayBad(count: nat, item: Schema, r: Reader)
    requires !r.ok
    ensures DecodeItems(count, item, r).reader == r
    decreases item, 1, count
  {
    if count > 0 {
      ItemsStayBad(count - 1, item, r);
    }
  }

  // ----- what was written is read back

  predicate At(r: Reader, bytes: Bytes) {
    r.ok && r.pos + |bytes| <= |r.data| && r.data[r.pos..r.pos + |bytes|] == bytes
  }

  function Past(r: Reader, n: nat): Reader {
    r.(pos := r.pos + n)
  }

  lemma AtSplit(r: Reader, a: Bytes, b: Bytes)
    requires At(r, a + b)
    ensures At(r, a) && At(Past(r, |a|), b)
  {
    var all := r.data[r.pos..r.pos + |a + b|];
    assert r.data[r.pos..r.pos + |a|] == all[..|a|] == a;
    assert r.data[r.pos + |a|..r.pos + |a| + |b|] == all[|a|..] == b;
  }

  lemma PastTwice(r: Reader, m: nat, n: nat)
    ensures Past(Past(r, m), n) == Past(r, m + n)
  {
  }

  lemma Powers()
    ensures Power(4) == TWO_32 && Power(8) == TWO_64
  {
    PowerFour();
    assert Power(5) == 0x100_0000_0000 && Power(6) == 0x1_0000_0000_0000;
    assert Power(7) == 0x100_0000_0000_0000;
  }

  lemma WordBack(r: Reader, n: nat, size: nat)
    requires n < Power(size) && At(r, LittleEndian(n, size))
    ensures Enough(r, size) && Word(r, size) == n && Raw(r, size) == Past(r, size)
  {
    LittleRoundTrip(n, size);
  }

  lemma BlobBack(b: Bytes, r: Reader)
    requires |b| < TWO_32 && At(r, LittleEndian(|b|, 4) + b)
    ensures DecodeBlob(r) == Got(Blob(b), Past(r, 4 + |b|))
  {
    Powers();
    hide Power, LittleEndian, FromLittle;
    AtSplit(r, LittleEndian(|b|, 4), b);
    WordBack(r, |b|, 4);
  }

  lemma {:induction false} ReadsBack(v: Value, s: Schema, r: Reader)
    requires Has(v, s) && At(r, Encode(v, s))
    ensures Decode(s, r) == Got(v, Past(r, |Encode(v, s)|))
    decreases s, 0, 1
  {
    hide Power, LittleEndian, FromLittle, EncodeItems, DecodeItems, DecodeBlob;
    match s
    case U32Schema =>
      Powers();
      WordBack(r, v.n, 4);
    case U64Schema =>
      Powers();
      WordBack(r, v.n, 8);
    case BlobSchema => BlobBack(v.bytes, r);
    case ListSchema(item) => ListBack(v.items, item, r);
    case PairSchema(a, b) => PairBack(v, a, b, r);
  }

  lemma {:induction false} PairBack(v: Value, a: Schema, b: Schema, r: Reader)
    requires v.Pair? && Has(v.first, a) && Has(v.second, b)
    requires At(r, Encode(v.first, a) + Encode(v.second, b))
    ensures Decode(PairSchema(a, b), r) == Got(v, Past(r, |Encode(v.first, a)| + |Encode(v.second, b)|))
    decreases PairSchema(a, b), 0, 0
  {
    hide Encode, Has, At;
    AtSplit(r, Encode(v.first, a), Encode(v.second, b));
    var middle := Past(r, |Encode(v.first, a)|);
    ReadsBack(v.first, a, r);
    ReadsBack(v.second, b, middle);
    PastTwice(r, |Encode(v.first, a)|, |Encode(v.second, b)|);
  }

  lemma {:induction false} ListBack(items: seq<Value>, item: Schema, r: Reader)
    requires |items| < TWO_32 && AllHave(items, item)
    requires At(r, LittleEndian(|items|, 4) + EncodeItems(items, item))
    ensures DecodeItems(Word(r, 4), item, Raw(r, 4)) == Got(List(items), Past(r, 4 + |EncodeItems(items, item)|))
    decreases item, 2, 0
  {
    Powers();
    hide Power, LittleEndian, EncodeItems, DecodeItems, Has;
    AtSplit(r, LittleEndian(|items|, 4), EncodeItems(items, item));
    WordBack(r, |items|, 4);
    ItemsBack(items, item, Past(r, 4));
  }

  lemma {:induction false} ItemsBack(items: seq<Value>, item: Schema, r: Reader)
    requires AllHave(items, item) && At(r, EncodeItems(items, item))
    ensures DecodeItems(|items|, item, r) == Got(List(items), Past(r, |EncodeItems(items, item)|))
    decreases item, 1, |items|
  {
    hide Decode, Encode, Has;
    if items == [] {
      assert r == Past(r, 0);
    } else {
      var front, last := items[..|items| - 1], items[|items| - 1];
      EncodeLast(items, item);
      OkAt(r, EncodeItems(items, item));
      hide DecodeItems, EncodeItems, At, AllHave, Past;
      AtSplit(r, EncodeItems(front, item), Encode(last, item));
      var middle := Past(r, |EncodeItems(front, item)|);
      ItemsBack(front, item, r);
      ReadsBack(last, item, middle);
      OkAt(middle, Encode(last, item));
      DecodeLast(front, last, item, r, middle, Past(middle, |Encode(last, item)|));
      PastTwice(r, |EncodeItems(front, item)|, |Encode(last, item)|);
      assert front + [last] == items;
    }
  }

  lemma OkAt(r: Reader, bytes: Bytes)
    requires At(r, bytes)
    ensures r.ok
  {
  }

  lemma EncodeLast(items: seq<Value>, item: Schema)
    requires items != [] && AllHave(items, item)
    ensures AllHave(items[..|items| - 1], item) && Has(items[|items| - 1], item)
    ensures EncodeItems(items, item) == EncodeItems(items[..|items| - 1], item) + Encode(items[|items| - 1], item)
  {
    hide Encode, Has;
  }

  lemma DecodeLast(front: seq<Value>, last: Value, item: Schema, r: Reader, middle: Reader, end: Reader)
    requires DecodeItems(|front|, item, r) == Got(List(front), middle) && middle.ok
    requires Decode(item, middle) == Got(last, end)
    ensures DecodeItems(|front| + 1, item, r) == Got(List(front + [last]), end)
  {
    hide Decode;
  }

  /** Reading a written file gives what was written, and all of it was needed. */
  lemma RoundTrip(v: Value, s: Schema)
    requires Has(v, s)
    ensures Decode(s, Reader(Encode(v, s), 0, true)) == Got(v, Reader(Encode(v, s), |Encode(v, s)|, true))
  {
    hide Encode, Has, Decode;
    var r := Reader(Encode(v, s), 0, true);
    assert r.data[0..|r.data|] == r.data;
    ReadsBack(v, s, r);
  }

  // ----- a file cut short

  function Longer(r: Reader, more: Bytes): Reader {
    r.(data := r.data + more)
  }

  lemma RawLonger(r: Reader, size: nat, more: Bytes)
    requires Raw(r, size).ok
    ensures Enough(r, size) && Enough(Longer(r, more), size)
    ensures Taken(Longer(r, more), size) == Taken(r, size)
    ensures Raw(Longer(r, more), size) == Longer(Raw(r, size), more)
    ensures Raw(r, size).data == r.data && Raw(r, size).pos <= |r.data|
  {
    assert (r.data + more)[r.pos..r.pos + size] == r.data[r.pos..r.pos + size];
  }

  lemma BlobLonger(r: Reader, more: Bytes)
    requires DecodeBlob(r).reader.ok
    ensures var g := DecodeBlob(r);
            && DecodeBlob(Longer(r, more)) == Got(g.value, Longer(g.reader, more))
            && g.reader.data == r.data && g.reader.pos <= |r.data|
  {
    var length := Word(r, 4);
    RawLonger(r, 4, more);
    RawLonger(Raw(r, 4), length, more);
  }

  /** A read that succeeds does not depend on what follows. */
  lemma {:induction false} DecodeLonger(s: Schema, r: Reader, more: Bytes)
    requires r.pos <= |r.data| && Decode(s, r).reader.ok
    ensures var g := Decode(s, r);
            && Decode(s, Longer(r, more)) == Got(g.value, Longer(g.reader, more))
            && g.reader.data == r.data && g.reader.pos <= |r.data|
    decreases s, 0, 0
  {
    hide DecodeItems, DecodeBlob, FromLittle;
    match s
    case U32Schema => RawLonger(r, 4, more);
    case U64Schema => RawLonger(r, 8, more);
    case BlobSchema => BlobLonger(r, more);
    case ListSchema(item) =>
      if !Raw(r, 4).ok {
        ItemsStayBad(Word(r, 4), item, Raw(r, 4));
      }
      RawLonger(r, 4, more);
      ItemsLonger(Word(r, 4), item, Raw(r, 4), more);
    case PairSchema(a, b) =>
      var first := Decode(a, r);
      if !first.reader.ok {
        StaysBad(b, first.reader);
      }
      DecodeLonger(a, r, more);
      DecodeLonger(b, first.reader, more);
  }

  lemma {:induction false} ItemsLonger(count: nat, item: Schema, r: Reader, more: Bytes)
    requires r.pos <= |r.data| && DecodeItems(count, item, r).reader.ok
    ensures var g := DecodeItems(count, item, r);
            && DecodeItems(count, item, Longer(r, more)) == Got(g.value, Longer(g.reader, more))
            && g.reader.data == r.data && g.reader.pos <= |r.data|
    decreases item, 1, count
  {
    hide Decode;
    if count > 0 {
      var front := DecodeItems(count - 1, item, r);
      ItemsLonger(count - 1, item, r, more);
      DecodeLonger(item, front.reader, more);
    }
  }

  /** Reading any strict prefix of a written file fails. */
  lemma PrefixFails(v: Value, s: Schema, n: nat)
    requires Has(v, s) && n < |Encode(v, s)|
    ensures !Decode(s, Reader(Encode(v, s)[..n], 0, true)).reader.ok
  {
    hide Encode, Has, Decode;
    var all := Encode(v, s);
    var r := Reader(all[..n], 0, true);
    if Decode(s, r).reader.ok {
      DecodeLonger(s, r, all[n..]);
      assert all[..n] + all[n..] == all;
      RoundTrip(v, s);
    }
  }

  /** Whatever the bytes, what is read has the shape the reader asked for. */
  lemma {:induction false} DecodeHas(s: Schema, r: Reader)
    ensures Has(Decode(s, r).value, s)
    decreases s, 0, 0
  {
    hide DecodeItems, FromLittle, Power;
    match s
    case U32Schema => WordBound(r, 4);
    case U64Schema => WordBound(r, 8);
    case BlobSchema => WordBound(r, 4);
    case ListSchema(item) =>
      WordBound(r, 4);
      ItemsHave(Word(r, 4), item, Raw(r, 4));
    case PairSchema(a, b) =>
      DecodeHas(a, r);
      DecodeHas(b, Decode(a, r).reader);
  }

  lemma WordBound(r: Reader, size: nat)
    requires size == 4 || size == 8
    ensures Word(r, size) < if size == 4 then TWO_32 else TWO_64
  {
    Powers();
    hide Power, FromLittle;
    if Enough(r, size) {
      FromLittleBound(Taken(r, size));
    }
  }

  lemma {:induction false} ItemsHave(count: nat, item: Schema, r: Reader)
    ensures AllHave(DecodeItems(count, item, r).value.items, item)
    decreases item, 1, count
  {
    hide Decode, Has;
    if count > 0 {
      ItemsHave(count - 1, item, r);
      DecodeHas(item, DecodeItems(count - 1, item, r).reader);
    }
  }

  // ----- only what could have been written is read

  lemma WordIsEncoded(r: Reader, size: nat)
    requires r.pos <= |r.data| && Raw(r, size).ok
    ensures At(r, LittleEndian(Word(r, size), size)) && Raw(r, size) == Past(r, size)
    ensures Past(r, size).pos <= |r.data|
  {
    hide LittleEndian, FromLittle;
    assert |Taken(r, size)| == size;
    BytesRoundTrip(Taken(r, size));
  }

  lemma PastInside(r: Reader, bytes: Bytes)
    requires At(r, bytes)
    ensures Past(r, |bytes|).pos <= |r.data|
  {
  }

  lemma AtJoin(r: Reader, a: Bytes, b: Bytes)
    requires At(r, a) && At(Past(r, |a|), b)
    ensures At(r, a + b)
  {
    assert r.data[r.pos..r.pos + |a + b|]
        == r.data[r.pos..r.pos + |a|] + r.data[r.pos + |a|..r.pos + |a| + |b|];
  }

  lemma BlobIsEncoded(r: Reader)
    requires r.pos <= |r.data| && DecodeBlob(r).reader.ok
    ensures var g := DecodeBlob(r);
            && At(r, LittleEndian(|g.value.bytes|, 4) + g.value.bytes)
            && g.reader == Past(r, 4 + |g.value.bytes|)
  {
    hide LittleEndian, FromLittle;
    WordIsEncoded(r, 4);
    var bytes := DecodeBlob(r).value.bytes;
    assert |bytes| == Word(r, 4);
    AtJoin(r, LittleEndian(|bytes|, 4), bytes);
  }

  /** A read that succeeds has come over the encoding of what it gives, and over no more. */
  lemma {:induction false} DecodeIsEncoded(s: Schema, r: Reader)
    requires r.pos <= |r.data| && Decode(s, r).reader.ok
    ensures var g := Decode(s, r);
            && Has(g.value, s) && At(r, Encode(g.value, s)) && g.reader == Past(r, |Encode(g.value, s)|)
    decreases s, 0, 1
  {
    DecodeHas(s, r);
    hide DecodeItems, DecodeBlob, EncodeItems, FromLittle, LittleEndian, At;
    match s
    case U32Schema => WordIsEncoded(r, 4);
    case U64Schema => WordIsEncoded(r, 8);
    case BlobSchema => BlobIsEncoded(r);
    case ListSchema(item) =>
      ItemsStartWell(Word(r, 4), item, Raw(r, 4));
      WordIsEncoded(r, 4);
      ListIsEncoded(Word(r, 4), item, r);
    case PairSchema(a, b) => PairIsEncoded(a, b, r);
  }

  lemma {:induction false} PairIsEncoded(a: Schema, b: Schema, r: Reader)
    requires r.pos <= |r.data| && Decode(PairSchema(a, b), r).reader.ok
    ensures var g := Decode(PairSchema(a, b), r);
            && g.value.Pair? && Has(g.value.first, a) && Has(g.value.second, b)
            && At(r, Encode(g.value.first, a) + Encode(g.value.second, b))
            && g.reader == Past(r, |Encode(g.value.first, a)| + |Encode(g.value.second, b)|)
    decreases PairSchema(a, b), 0, 0
  {
    hide Encode, Has, At;
    var first := Decode(a, r);
    if !first.reader.ok {
      StaysBad(b, first.reader);
    }
    DecodeIsEncoded(a, r);
    PastInside(r, Encode(first.value, a));
    DecodeIsEncoded(b, first.reader);
    AtJoin(r, Encode(first.value, a), Encode(Decode(b, first.reader).value, b));
  }

  lemma {:induction false} ItemsStartWell(count: nat, item: Schema, r: Reader)
    requires DecodeItems(count, item, r).reader.ok
    ensures r.ok
    decreases count
  {
    hide Decode;
    if count > 0 {
      ItemsStartWell(count - 1, item, r);
    }
  }

  lemma ListJoined(items: seq<Value>, item: Schema, r: Reader)
    requires AllHave(items, item) && At(r, LittleEndian(|items|, 4)) && At(Past(r, 4), EncodeItems(items, item))
    ensures At(r, LittleEndian(|items|, 4) + EncodeItems(items, item))
    ensures Past(Past(r, 4), |EncodeItems(items, item)|) == Past(r, 4 + |EncodeItems(items, item)|)
  {
    hide LittleEndian, Encode, EncodeItems, Has, At, AllHave, Past;
    AtJoin(r, LittleEndian(|items|, 4), EncodeItems(items, item));
    PastTwice(r, 4, |EncodeItems(items, item)|);
  }

  lemma {:induction false} ListIsEncoded(count: nat, item: Schema, r: Reader)
    requires At(r, LittleEndian(count, 4)) && Past(r, 4).pos <= |r.data|
    requires DecodeItems(count, item, Past(r, 4)).reader.ok
    ensures var g := DecodeItems(count, item, Past(r, 4));
            && AllHave(g.value.items, item) && |g.value.items| == count
            && At(r, LittleEndian(count, 4) + EncodeItems(g.value.items, item))
            && g.reader == Past(r, 4 + |EncodeItems(g.value.items, item)|)
    decreases item, 2, 0
  {
    hide LittleEndian, Encode, EncodeItems, Decode, DecodeItems, Has, At, AllHave;
    assert Past(r, 4).data == r.data;
    hide Past;
    ItemsAreEncoded(count, item, Past(r, 4));
    var items := DecodeItems(count, item, Past(r, 4)).value.items;
    ListJoined(items, item, r);
    assert At(r, LittleEndian(count, 4) + EncodeItems(items, item));
  }

  lemma {:induction false} ItemsAreEncoded(count: nat, item: Schema, r: Reader)
    requires r.pos <= |r.data| && DecodeItems(count, item, r).reader.ok
    ensures var g := DecodeItems(count, item, r);
            && AllHave(g.value.items, item) && |g.value.items| == count
            && At(r, EncodeItems(g.value.items, item)) && g.reader == Past(r, |EncodeItems(g.value.items, item)|)
    decreases item, 1, count
  {
    hide Decode, Encode, Has;
    if count > 0 {
      var front := DecodeItems(count - 1, item, r);
      ItemsAreEncoded(count - 1, item, r);
      DecodeIsEncoded(item, front.reader);
      var items := DecodeItems(count, item, r).value.items;
      assert items[..count - 1] == front.value.items;
      ItemsHave(count, item, r);
      EncodeLast(items, item);
      AtJoin(r, EncodeItems(front.value.items, item), Encode(items[count - 1], item));
    }
  }

  // ----- the classes

  class CacheWriter {
    var m_data: Bytes

    constructor ()
      ensures m_data == []
    {
      m_data := [];
    }

    method Append(bytes: Bytes)
      modifies this
      ensures m_data == old(m_data) + bytes
    {
      m_data := m_data + bytes;
    }

    method U32(value: nat)
      requires value < TWO_32
      modifies this
      ensures m_data == old(m_data) + LittleEndian(value, 4)
    {
      Append(LittleEndian(value, 4));
    }

    method U64(value: nat)
      requires value < TWO_64
      modifies this
      ensures m_data == old(m_data) + LittleEndian(value, 8)
    {
      Append(LittleEndian(value, 8));
    }

    /** `String` and `Bytes`. */
    method String(value: Bytes)
      requires |value| < TWO_32
      modifies this
      ensures m_data == old(m_data) + (LittleEndian(|value|, 4) + value)
    {
      hide LittleEndian;
      U32(|value|);
      Append(value);
    }

    /** A record of the file, field after field. */
    method Write(v: Value, s: Schema)
      requires Has(v, s)
      modifies this
      ensures m_data == old(m_data) + Encode(v, s)
      decreases s, 0
    {
      hide LittleEndian, EncodeItems;
      match s
      case U32Schema => U32(v.n);
      case U64Schema => U64(v.n);
      case BlobSchema => String(v.bytes);
      case ListSchema(item) =>
        U32(|v.items|);
        WriteItems(v.items, item);
      case PairSchema(a, b) =>
        Write(v.first, a);
        Write(v.second, b);
    }

    method WriteItems(items: seq<Value>, item: Schema)
      requires AllHave(items, item)
      modifies this
      ensures m_data == old(m_data) + EncodeItems(items, item)
      decreases item, 1
    {
      hide Encode, Has;
      for i := 0 to |items|
        invariant m_data == old(m_data) + EncodeItems(items[..i], item)
      {
        Write(items[i], item);
        assert items[..i + 1][..i] == items[..i];
      }
      assert items[..|items|] == items;
    }
  }

  class CacheReader {
    const m_data: Bytes
    var m_pos: nat
    var m_ok: bool

    constructor (data: Bytes)
      ensures View() == Reader(data, 0, true)
    {
      m_data, m_pos, m_ok := data, 0, true;
    }

    ghost function View(): Reader
      reads this
    {
      Reader(m_data, m_pos, m_ok)
    }

    method Take(size: nat) returns (bytes: Bytes)
      modifies this
      ensures View() == Raw(old(View()), size)
      ensures bytes == if Enough(old(View()), size) then Taken(old(View()), size) else []
    {
      if !m_ok || m_pos + size > |m_data| {
        m_ok := false;
        return [];
      }
      bytes := m_data[m_pos..m_pos + size];
      m_pos := m_pos + size;
    }

    method U32() returns (value: nat)
      modifies this
      ensures value == Word(old(View()), 4) && View() == Raw(old(View()), 4)
    {
      var bytes := Take(4);
      value := FromLittle(bytes);
    }

    method U64() returns (value: nat)
      modifies this
      ensures value == Word(old(View()), 8) && View() == Raw(old(View()), 8)
    {
      var bytes := Take(8);
      value := FromLittle(bytes);
    }

    method ReadLength() returns (length: nat)
      modifies this
      ensures (length, View()) == Length(old(View()))
    {
      hide FromLittle;
      length := U32();
      if !m_ok || m_pos + length > |m_data| {
        m_ok := false;
        return 0;
      }
    }

    method String() returns (value: Bytes)
      modifies this
      ensures Got(Blob(value), View()) == DecodeBlob(old(View()))
    {
      hide FromLittle;
      var length := ReadLength();
      value := Take(length);
    }

    method Read(s: Schema) returns (v: Value)
      modifies this
      ensures Got(v, View()) == Decode(s, old(View()))
      decreases s, 0, 0
    {
      hide FromLittle, DecodeItems, DecodeBlob;
      match s
      case U32Schema =>
        var n := U32();
        v := Number(n);
      case U64Schema =>
        var n := U64();
        v := Number(n);
      case BlobSchema =>
        var b := String();
        v := Blob(b);
      case ListSchema(item) =>
        var count := U32();
        v := ReadItems(count, item);
      case PairSchema(a, b) =>
        var first := Read(a);
        var second := Read(b);
        v := Pair(first, second);
    }

    method ReadItems(count: nat, item: Schema) returns (v: Value)
      modifies this
      ensures Got(v, View()) == DecodeItems(count, item, old(View()))
      decreases item, 1, 0
    {
      hide Decode;
      var items: seq<Value> := [];
      var i := 0;
      while i < count && m_ok
        invariant i <= count
        invariant Got(List(items), View()) == DecodeItems(i, item, old(View()))
      {
        var value := Read(item);
        items := items + [value];
        i := i + 1;
      }
      if i < count {
        BadItems(i, count, item, old(View()));
      }
      v := List(items);
    }

    static lemma {:induction false} BadItems(i: nat, count: nat, item: Schema, r: Reader)
      requires i <= count && !DecodeItems(i, item, r).reader.ok
      ensures DecodeItems(count, item, r) == DecodeItems(i, item, r)
    {
      hide Decode;
      if i < count {
        BadItems(i, count - 1, item, r);
      }
    }
  }
}
