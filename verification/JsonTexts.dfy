/** The string codec against the grammar: what is scanned and decoded is exactly what the grammar
    spells, and means what it says. */
module JsonTexts {
  import opened Bytes
  import opened JsonGrammar
  import JsonStrings
  import Utf8

  // ----- code units

  lemma HexIs(c: Byte)
    ensures JsonStrings.HexValue(c) == if IsHex(c) then HexOf(c) else -1
    ensures IsHex(c) ==> JsonStrings.Plain(c)
  {
  }

  lemma UnitIs(s: Bytes)
    requires |s| >= 4
    ensures JsonStrings.DecodeUnit(s).Unit? <==> FourHex(s[..4])
    ensures FourHex(s[..4]) ==> JsonStrings.DecodeUnit(s) == JsonStrings.Unit(CodeUnit(s[..4]))
  {
    HexIs(s[0]);
    HexIs(s[1]);
    HexIs(s[2]);
    HexIs(s[3]);
    hide IsHex, HexOf, JsonStrings.HexValue;
    var h := s[..4];
    assert h[0] == s[0] && h[1] == s[1] && h[2] == s[2] && h[3] == s[3];
  }

  lemma HexScans(hex: Bytes, rest: Bytes)
    requires FourHex(hex)
    ensures JsonStrings.ScanString(hex + rest)
         == (JsonStrings.ScanString(rest).0, 4 + JsonStrings.ScanString(rest).1)
  {
    hide JsonStrings.ScanString;
    forall i | 0 <= i < 4
      ensures JsonStrings.Plain(hex[i])
    {
      HexIs(hex[i]);
    }
    JsonStrings.ScanPlainRun(hex, rest);
  }

  lemma EscapeScans(hex: Bytes, rest: Bytes)
    requires FourHex(hex)
    ensures JsonStrings.ScanString([0x5C, 0x75] + hex + rest)
         == (JsonStrings.ScanString(rest).0, 6 + JsonStrings.ScanString(rest).1)
  {
    hide JsonStrings.ScanString, FourHex;
    var s := [0x5C, 0x75] + hex + rest;
    JsonStrings.ScanPair(s);
    assert s[2..] == hex + rest;
    HexScans(hex, rest);
  }

  // ----- one character

  lemma CharScans(c: Char, rest: Bytes)
    requires LegalChar(c)
    ensures JsonStrings.ScanString(SpellChar(c) + rest)
         == (JsonStrings.ScanString(rest).0, |SpellChar(c)| + JsonStrings.ScanString(rest).1)
  {
    hide JsonStrings.ScanString, FourHex, CodeUnit;
    match c
    case Raw(b) => RawScans(b, rest);
    case Short(letter) => ShortScans(letter, rest);
    case Unit(hex) =>
      HexLength(hex);
      EscapeScans(hex, rest);
    case Surrogates(high, low) =>
      HexLength(high);
      HexLength(low);
      SurrogatesScan(high, low, rest);
  }

  lemma RawScans(b: Byte, rest: Bytes)
    requires b != 0x22 && b != 0x5C
    ensures JsonStrings.ScanString([b] + rest) == (JsonStrings.ScanString(rest).0, 1 + JsonStrings.ScanString(rest).1)
  {
    hide JsonStrings.ScanString;
    JsonStrings.ScanPlain([b] + rest);
    assert ([b] + rest)[1..] == rest;
  }

  lemma ShortScans(letter: Byte, rest: Bytes)
    ensures JsonStrings.ScanString([0x5C, letter] + rest)
         == (JsonStrings.ScanString(rest).0, 2 + JsonStrings.ScanString(rest).1)
  {
    hide JsonStrings.ScanString;
    JsonStrings.ScanPair([0x5C, letter] + rest);
    assert ([0x5C, letter] + rest)[2..] == rest;
  }

  lemma SurrogatesScan(high: Bytes, low: Bytes, rest: Bytes)
    requires FourHex(high) && FourHex(low)
    ensures JsonStrings.ScanString([0x5C, 0x75] + high + [0x5C, 0x75] + low + rest)
         == (JsonStrings.ScanString(rest).0, 12 + JsonStrings.ScanString(rest).1)
  {
    hide JsonStrings.ScanString, FourHex;
    var second := [0x5C, 0x75] + low + rest;
    EscapeScans(low, rest);
    EscapeScans(high, second);
    assert [0x5C, 0x75] + high + [0x5C, 0x75] + low + rest == [0x5C, 0x75] + high + second;
  }

  lemma HexLength(hex: Bytes)
    requires FourHex(hex)
    ensures |hex| == 4
  {
  }

  lemma ShortIs(letter: Byte)
    ensures JsonStrings.Unescaped(letter) >= 0 <==> LegalChar(Short(letter))
    ensures LegalChar(Short(letter)) ==> CharMeans(Short(letter)) == [JsonStrings.Unescaped(letter)]
    ensures LegalChar(Short(letter)) ==> letter != JsonStrings.LETTER_U
  {
  }

  lemma CharDecodes(c: Char, rest: Bytes)
    requires LegalChar(c)
    ensures JsonStrings.DecodeText(SpellChar(c) + rest)
         == JsonStrings.Prepend(CharMeans(c), JsonStrings.DecodeText(rest))
  {
    match c
    case Raw(b) => RawDecodes(b, rest);
    case Short(letter) => ShortDecodes(letter, rest);
    case Unit(hex) => UnitDecodes(hex, rest);
    case Surrogates(high, low) => SurrogatesDecode(high, low, rest);
  }

  lemma RawDecodes(b: Byte, rest: Bytes)
    requires LegalChar(Raw(b))
    ensures JsonStrings.DecodeText([b] + rest) == JsonStrings.Prepend([b], JsonStrings.DecodeText(rest))
  {
    assert ([b] + rest)[1..] == rest;
  }

  lemma ShortDecodes(letter: Byte, rest: Bytes)
    requires LegalChar(Short(letter))
    ensures JsonStrings.DecodeText([0x5C, letter] + rest)
         == JsonStrings.Prepend(CharMeans(Short(letter)), JsonStrings.DecodeText(rest))
  {
    ShortIs(letter);
    hide JsonStrings.Unescaped, LegalChar, CharMeans, JsonStrings.DecodePoint;
    assert ([0x5C, letter] + rest)[2..] == rest;
  }

  lemma UnitDecodes(hex: Bytes, rest: Bytes)
    requires LegalChar(Unit(hex))
    ensures JsonStrings.DecodeText([0x5C, 0x75] + hex + rest)
         == JsonStrings.Prepend(Utf8.Encode(CodeUnit(hex)), JsonStrings.DecodeText(rest))
  {
    HexLength(hex);
    var s := [0x5C, 0x75] + hex + rest;
    assert s[2..] == hex + rest && (hex + rest)[..4] == hex && s[6..] == rest;
    UnitIs(hex + rest);
    hide FourHex, CodeUnit, JsonStrings.DecodeUnit, Utf8.Encode;
    assert JsonStrings.DecodePoint(s[2..]) == JsonStrings.Point(CodeUnit(hex), 4);
    hide JsonStrings.DecodePoint;
  }

  lemma SurrogatesDecode(high: Bytes, low: Bytes, rest: Bytes)
    requires LegalChar(Surrogates(high, low))
    ensures JsonStrings.DecodeText([0x5C, 0x75] + high + [0x5C, 0x75] + low + rest)
         == JsonStrings.Prepend(CharMeans(Surrogates(high, low)), JsonStrings.DecodeText(rest))
  {
    HexLength(high);
    HexLength(low);
    var tail := low + rest;
    var second := high + [0x5C, 0x75] + tail;
    var s := [0x5C, 0x75] + second;
    assert s == [0x5C, 0x75] + high + [0x5C, 0x75] + low + rest;
    assert s[2..] == second && second[..4] == high && second[6..] == tail && tail[..4] == low && s[12..] == rest;
    assert second[4] == 0x5C && second[5] == 0x75;
    UnitIs(second);
    UnitIs(tail);
    hide FourHex, CodeUnit, JsonStrings.DecodeUnit, Utf8.Encode, JsonStrings.Prepend;
    PairPoint(second, CodeUnit(high), CodeUnit(low));
    hide JsonStrings.DecodePoint;
  }

  lemma PairPoint(s: Bytes, u: nat, v: nat)
    requires |s| >= 10 && s[4] == 0x5C && s[5] == 0x75 && 0xD800 <= u <= 0xDBFF
    requires JsonStrings.DecodeUnit(s) == JsonStrings.Unit(u) && JsonStrings.DecodeUnit(s[6..]) == JsonStrings.Unit(v)
    ensures JsonStrings.DecodePoint(s) == JsonStrings.Point(0x1_0000 + (u - 0xD800) * 0x400 + v % 0x400, 10)
  {
    hide JsonStrings.DecodeUnit;
    assert u % 0x400 == u - 0xD800;
  }

  // ----- whole strings

  lemma {:induction false} TextScans(cs: seq<Char>, rest: Bytes)
    requires LegalText(cs)
    ensures JsonStrings.ScanString(SpellText(cs) + ([0x22] + rest)) == (true, |SpellText(cs)| + 1)
  {
    hide JsonStrings.ScanString, LegalChar, SpellChar;
    if cs == [] {
      assert [] + ([0x22] + rest) == [0x22] + rest;
      JsonStrings.ScanQuote(rest);
    } else {
      TextScans(cs[1..], rest);
      CharScans(cs[0], SpellText(cs[1..]) + ([0x22] + rest));
      assert SpellText(cs) + ([0x22] + rest) == SpellChar(cs[0]) + (SpellText(cs[1..]) + ([0x22] + rest));
    }
  }

  lemma {:induction false} TextDecodes(cs: seq<Char>)
    requires LegalText(cs)
    ensures JsonStrings.DecodeText(SpellText(cs)) == JsonStrings.Text(TextMeans(cs))
  {
    if cs != [] {
      hide JsonStrings.DecodeText, LegalChar, SpellChar, CharMeans;
      TextDecodes(cs[1..]);
      CharDecodes(cs[0], SpellText(cs[1..]));
    }
  }

  /** Text that decodes starts with a legal character. */
  lemma FrontChar(t: Bytes) returns (c: Char)
    requires t != [] && t[0] != JsonStrings.QUOTE && JsonStrings.DecodeText(t).Text?
    ensures LegalChar(c) && SpellChar(c) <= t
  {
    hide Utf8.Encode;
    if t[0] != JsonStrings.BACKSLASH {
      c := Raw(t[0]);
    } else if t[1] != JsonStrings.LETTER_U {
      ShortIs(t[1]);
      c := Short(t[1]);
    } else {
      c := FrontUnit(t);
    }
  }

  lemma FrontUnit(t: Bytes) returns (c: Char)
    requires |t| >= 2 && t[0] == JsonStrings.BACKSLASH && t[1] == JsonStrings.LETTER_U
    requires JsonStrings.DecodePoint(t[2..]).Point?
    ensures LegalChar(c) && SpellChar(c) <= t
  {
    hide FourHex, CodeUnit, JsonStrings.DecodeUnit;
    var s := t[2..];
    UnitIs(s);
    var high := s[..4];
    HexLength(high);
    assert t == [0x5C, 0x75] + high + t[6..];
    if IsHigh(CodeUnit(high)) {
      UnitIs(s[6..]);
      var low := s[6..][..4];
      HexLength(low);
      c := Surrogates(high, low);
      assert t == SpellChar(c) + t[12..];
    } else {
      c := Unit(high);
    }
  }

  /** Whatever is scanned up to its closing quote and decodes is spelled by the grammar. */
  lemma {:induction false} TextFrom(t: Bytes) returns (cs: seq<Char>)
    requires JsonStrings.ScanString(t + [0x22]) == (true, |t| + 1) && JsonStrings.DecodeText(t).Text?
    ensures LegalText(cs) && SpellText(cs) == t && JsonStrings.DecodeText(t) == JsonStrings.Text(TextMeans(cs))
    decreases |t|
  {
    if t == [] {
      cs := [];
    } else {
      hide JsonStrings.DecodeText, JsonStrings.ScanString, LegalChar, CharMeans, SpellChar;
      var c, rest := FirstFrom(t);
      var more := TextFrom(rest);
      cs := [c] + more;
      assert cs[1..] == more;
    }
  }

  lemma FirstFrom(t: Bytes) returns (c: Char, rest: Bytes)
    requires t != []
    requires JsonStrings.ScanString(t + [0x22]) == (true, |t| + 1) && JsonStrings.DecodeText(t).Text?
    ensures LegalChar(c) && t == SpellChar(c) + rest && |rest| < |t|
    ensures JsonStrings.ScanString(rest + [0x22]) == (true, |rest| + 1)
    ensures JsonStrings.DecodeText(t) == JsonStrings.Prepend(CharMeans(c), JsonStrings.DecodeText(rest))
  {
    NoQuoteInFront(t);
    c := FrontChar(t);
    SpelledLength(c);
    hide JsonStrings.DecodeText, JsonStrings.ScanString, JsonStrings.Prepend, LegalChar, CharMeans, SpellChar;
    rest := RestBehind(t, SpellChar(c));
    CharScans(c, rest + [0x22]);
    CharDecodes(c, rest);
  }

  lemma RestBehind(t: Bytes, front: Bytes) returns (rest: Bytes)
    requires front <= t
    ensures t == front + rest && forall x: Bytes :: t + x == front + (rest + x)
  {
    rest := t[|front|..];
    forall x: Bytes
      ensures t + x == front + (rest + x)
    {
    }
  }

  lemma SpelledLength(c: Char)
    ensures |SpellChar(c)| > 0
  {
  }

  lemma NoQuoteInFront(t: Bytes)
    requires t != [] && JsonStrings.ScanString(t + [0x22]) == (true, |t| + 1)
    ensures t[0] != JsonStrings.QUOTE
  {
  }
}
