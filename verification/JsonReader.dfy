/** The class `JsonReader` of src/common/json.cpp. Each method is proved to compute the
    function of JsonParsing that describes it. */
module JsonReader {
  import opened Bytes
  import opened JsonValues
  import opened JsonParsing
  import JsonNumbers
  import JsonStrings
  import Utf8

  class JsonReader {
    /** The text from `m_begin` to `m_end`. */
    var m_document: Bytes
    var m_current: nat
    var m_errors: seq<Error>
    /** The values under construction, the innermost last: what the pointers of the node stack
        point to. */
    var m_nodes: seq<JsonValue>
    /** Which floating-point tokens the C library reads. */
    const readable: Bytes -> bool

    constructor (readable: Bytes -> bool)
      ensures m_nodes == [] && m_errors == [] && this.readable == readable && Valid()
    {
      m_document, m_current, m_errors, m_nodes := [], 0, [], [];
      this.readable := readable;
    }

    ghost predicate Valid()
      reads this`m_document, this`m_current
    {
      m_current <= |m_document|
    }

    ghost function Unread(): Bytes
      requires Valid()
      reads this`m_document, this`m_current
    {
      m_document[m_current..]
    }

    // ----- characters

    method GetNextChar() returns (c: Byte)
      requires Valid()
      modifies this`m_current
      ensures Valid()
      ensures if old(Unread()) == [] then c == 0 && Unread() == []
              else c == old(Unread())[0] && Unread() == old(Unread())[1..]
    {
      if m_current == |m_document| {
        return 0;
      }
      c := m_document[m_current];
      m_current := m_current + 1;
    }

    method SkipSpaces()
      requires Valid()
      modifies this`m_current
      ensures Valid() && Unread() == JsonParsing.SkipSpaces(old(Unread()))
    {
      while m_current != |m_document|
        invariant Valid() && JsonParsing.SkipSpaces(Unread()) == JsonParsing.SkipSpaces(old(Unread()))
        decreases |m_document| - m_current
      {
        var c := m_document[m_current];
        if IsSpace(c) {
          assert Unread()[1..] == m_document[m_current + 1..];
          m_current := m_current + 1;
          continue;
        }
        break;
      }
    }

    method Match(pattern: Bytes) returns (ok: bool)
      requires Valid()
      modifies this`m_current
      ensures Valid() && (ok <==> pattern <= old(Unread()))
      ensures Unread() == if ok then old(Unread())[|pattern|..] else old(Unread())
    {
      if |m_document| - m_current < |pattern| {
        return false;
      }
      var i := |pattern|;
      while i > 0
        invariant 0 <= i <= |pattern|
        invariant forall k :: i <= k < |pattern| ==> m_document[m_current + k] == pattern[k]
      {
        i := i - 1;
        if m_document[m_current + i] != pattern[i] {
          assert Unread()[i] != pattern[i];
          return false;
        }
      }
      assert Unread()[..|pattern|] == pattern;
      m_current := m_current + |pattern|;
      return true;
    }

    /** `c = (m_current = p) < m_end ? *p++ : 0`. */
    method Advance(p: nat) returns (c: Byte, p': nat)
      requires p <= |m_document|
      modifies this`m_current
      ensures m_current == p
      ensures if p < |m_document| then c == m_document[p] && p' == p + 1 else c == 0 && p' == p
    {
      m_current := p;
      if p < |m_document| {
        return m_document[p], p + 1;
      }
      return 0, p;
    }

    /** The digit loop of `ReadNumber`, entered with the character in front of `p`. */
    method SkipDigits(first: Byte, p: nat) returns (c: Byte, p': nat)
      requires p <= |m_document|
      requires !JsonNumbers.IsDigit(first) ==>
        m_current <= |m_document| && first == CharAt(m_current) && p == After(m_current)
      modifies this`m_current
      ensures m_current <= |m_document| && c == CharAt(m_current) && p' == After(m_current) && !JsonNumbers.IsDigit(c)
      ensures if JsonNumbers.IsDigit(first) then m_current == p + DigitRun(m_document[p..])
        else m_current == old(m_current)
    {
      c, p' := first, p;
      while JsonNumbers.IsDigit(c)
        invariant p <= p' <= |m_document|
        invariant JsonNumbers.IsDigit(first) && JsonNumbers.IsDigit(c) ==>
          p + DigitRun(m_document[p..]) == p' + DigitRun(m_document[p'..])
        invariant !JsonNumbers.IsDigit(first) ==> m_current == old(m_current) && c == first
        invariant !JsonNumbers.IsDigit(c) ==>
          m_current <= |m_document| && c == CharAt(m_current) && p' == After(m_current)
        invariant JsonNumbers.IsDigit(first) && !JsonNumbers.IsDigit(c) ==> m_current == p + DigitRun(m_document[p..])
        decreases |m_document| - p', if JsonNumbers.IsDigit(c) then 1 else 0
      {
        ghost var at := p';
        c, p' := Advance(p');
        if at < |m_document| {
          assert m_document[at..][0] == c && m_document[at..][1..] == m_document[at + 1..];
        }
      }
    }

    function CharAt(i: nat): Byte
      reads this`m_document
    {
      if i < |m_document| then m_document[i] else 0
    }

    function After(i: nat): nat
      reads this`m_document
    {
      if i < |m_document| then i + 1 else i
    }

    method ReadNumber()
      requires Valid()
      modifies this`m_current
      ensures Valid() && Unread() == old(Unread())[NumberTail(old(Unread()))..]
    {
      hide DigitRun, NumberTail;
      ghost var start := m_current;
      var c, p := SkipDigits(0x30, m_current);
      ghost var a := m_current;
      if c == 0x2E {
        c, p := SkipRun(p);
      }
      assert m_current == FractionEnd(m_document, a);
      ghost var b := m_current;
      if c == 0x65 || c == 0x45 {
        c, p := Advance(p);
        if c == 0x2B || c == 0x2D {
          c, p := SkipRun(p);
        } else {
          c, p := SkipRunFrom(c, p);
        }
      }
      assert m_current == ExponentEnd(m_document, b);
      NumberEnd(m_document, start, a);
    }

    /** A character, and the digits from the next one on. */
    method SkipRun(p: nat) returns (c: Byte, p': nat)
      requires p <= |m_document|
      modifies this`m_current
      ensures m_current <= |m_document| && c == CharAt(m_current) && p' == After(m_current)
      ensures m_current == p + DigitRun(m_document[p..])
    {
      c, p' := Advance(p);
      c, p' := SkipRunFrom(c, p');
    }

    method SkipRunFrom(first: Byte, p: nat) returns (c: Byte, p': nat)
      requires m_current <= |m_document| && first == CharAt(m_current) && p == After(m_current)
      modifies this`m_current
      ensures m_current <= |m_document| && c == CharAt(m_current) && p' == After(m_current)
      ensures m_current == old(m_current) + DigitRun(m_document[old(m_current)..])
    {
      if JsonNumbers.IsDigit(first) {
        RunBehindDigit(m_document, m_current);
      }
      c, p' := SkipDigits(first, p);
    }

    /** `NumberTail` by positions in the document. */
    static lemma NumberEnd(document: Bytes, start: nat, a: nat)
      requires start <= a <= |document| && a == start + DigitRun(document[start..])
      ensures var e := ExponentEnd(document, FractionEnd(document, a));
              document[e..] == document[start..][NumberTail(document[start..])..]
    {
      hide DigitRun, FractionEnd, ExponentEnd;
      FractionAt(document, start, a);
      ExponentAt(document, start, FractionEnd(document, a));
    }

    static lemma FractionAt(document: Bytes, start: nat, a: nat)
      requires start <= a <= |document|
      ensures FractionEnd(document[start..], a - start) == FractionEnd(document, a) - start
    {
      hide DigitRun;
      if a < |document| {
        assert document[start..][a - start + 1..] == document[a + 1..];
      }
    }

    static lemma ExponentAt(document: Bytes, start: nat, b: nat)
      requires start <= b <= |document|
      ensures ExponentEnd(document[start..], b - start) == ExponentEnd(document, b) - start
    {
      hide DigitRun;
      if b < |document| {
        assert document[start..][b - start + 1..] == document[b + 1..];
        if b + 1 < |document| {
          assert document[start..][b - start + 2..] == document[b + 2..];
        }
      }
    }

    static lemma RunBehindDigit(document: Bytes, i: nat)
      requires i < |document| && JsonNumbers.IsDigit(document[i])
      ensures DigitRun(document[i..]) == 1 + DigitRun(document[i + 1..])
    {
      assert document[i..][1..] == document[i + 1..];
    }

    method ReadString() returns (ok: bool)
      requires Valid()
      modifies this`m_current
      ensures Valid()
      ensures var (found, n) := JsonStrings.ScanString(old(Unread())); ok == found && Unread() == old(Unread())[n..]
    {
      hide JsonStrings.ScanString;
      var c: Byte := 0;
      while m_current != |m_document|
        invariant Valid() && c != JsonStrings.QUOTE
        invariant JsonStrings.ScanString(Unread()).0 == JsonStrings.ScanString(old(Unread())).0
        invariant BehindString(Unread()) == BehindString(old(Unread()))
        decreases |m_document| - m_current
      {
        StringStep(Unread());
        c := GetNextChar();
        if c == JsonStrings.BACKSLASH {
          var _ := GetNextChar();
        } else if c == JsonStrings.QUOTE {
          break;
        }
      }
      StringEnds();
      ok := c == JsonStrings.QUOTE;
    }

    static ghost function BehindString(s: Bytes): Bytes {
      s[JsonStrings.ScanString(s).1..]
    }

    static lemma StringStep(s: Bytes)
      requires s != []
      ensures var t := if s[0] != JsonStrings.BACKSLASH || |s| == 1 then s[1..] else s[2..];
              if s[0] == JsonStrings.QUOTE then JsonStrings.ScanString(s).0 && BehindString(s) == t
              else JsonStrings.ScanString(s).0 == JsonStrings.ScanString(t).0 && BehindString(s) == BehindString(t)
    {
    }

    static lemma StringEnds()
      ensures JsonStrings.ScanString([]) == (false, 0)
    {
    }

    // ----- tokens

    /** The switch of `ReadToken`, entered behind its character `c`. */
    method Classify(c: Byte, ghost t: Bytes) returns (kind: Kind)
      requires Valid() && t == [c] + Unread()
      modifies this`m_current
      ensures Valid()
      ensures kind == Front(t).0 && Unread() == t[Front(t).1..]
    {
      hide JsonStrings.ScanString, NumberTail;
      assert t[1..] == Unread();
      var ok := true;
      kind := ErrorToken;
      if c == 0x7B { kind := ObjectBegin; }
      else if c == 0x7D { kind := ObjectEnd; }
      else if c == 0x5B { kind := ArrayBegin; }
      else if c == 0x5D { kind := ArrayEnd; }
      else if c == JsonStrings.QUOTE { kind := StringToken; ok := ReadString(); }
      else if JsonNumbers.IsDigit(c) || c == JsonNumbers.MINUS { kind := NumberToken; ReadNumber(); }
      else if c == 0x74 { kind := TrueToken; KeywordSplit(TRUE_TEXT, t); ok := Match(TRUE_TEXT[1..]); }
      else if c == 0x6E { kind := NullToken; KeywordSplit(NULL_TEXT, t); ok := Match(NULL_TEXT[1..]); }
      else if c == 0x66 { kind := FalseToken; KeywordSplit(FALSE_TEXT, t); ok := Match(FALSE_TEXT[1..]); }
      else if c == 0x2C { kind := ArraySeparator; }
      else if c == 0x3A { kind := MemberSeparator; }
      else { ok := false; }
      if !ok {
        kind := ErrorToken;
      }
    }

    static lemma KeywordSplit(keyword: Bytes, t: Bytes)
      requires keyword != [] && t != [] && keyword[0] == t[0]
      ensures keyword <= t <==> keyword[1..] <= t[1..]
      ensures keyword <= t ==> t[1..][|keyword| - 1..] == t[|keyword|..]
    {
      if keyword[1..] <= t[1..] {
        assert keyword == [t[0]] + keyword[1..];
        assert t[..|keyword|] == [t[0]] + t[1..][..|keyword| - 1];
      }
    }

    method ReadToken() returns (ok: bool, token: Token)
      requires Valid()
      modifies this`m_current
      ensures Valid() && JsonParsing.ReadToken(old(Unread())) == Lexed(token, Unread())
      ensures ok == (token.kind != ErrorToken)
    {
      hide Front;
      SkipSpaces();
      ghost var t := Unread();
      var start := m_current;
      if m_current == |m_document| {
        return true, Token(EndOfStream, []);
      }
      var c := GetNextChar();
      var kind := Classify(c, t);
      assert m_document[start..m_current] == t[..Front(t).1] by { Consumed(m_document, start, m_current, Front(t).1); }
      token := Token(kind, m_document[start..m_current]);
      ok := kind != ErrorToken;
    }

    static lemma Consumed(document: Bytes, start: nat, end: nat, n: nat)
      requires start <= |document| && end <= |document| && n <= |document| - start
      requires document[end..] == document[start..][n..]
      ensures start <= end && document[start..end] == document[start..][..n]
    {
      assert |document[end..]| == |document| - end;
    }

    method AddError(message: string, token: Token) returns (ok: bool)
      modifies this`m_errors
      ensures !ok && m_errors == old(m_errors) + [Error(message, token)]
    {
      m_errors := m_errors + [Error(message, token)];
      return false;
    }

    /** `RecoverFromError`: reads on to the token, or to the end; the errors stay as they were. */
    method RecoverFromError(until: Kind) returns (ok: bool)
      requires Valid()
      modifies this`m_current, this`m_errors
      ensures Valid() && !ok && m_errors == old(m_errors) && Unread() == Recover(old(Unread()), until)
    {
      hide JsonParsing.ReadToken;
      var errorCount := |m_errors|;
      while true
        invariant Valid() && m_errors == old(m_errors)
        invariant Recover(Unread(), until) == Recover(old(Unread()), until)
        decreases |m_document| - m_current
      {
        var read, skip := ReadToken();
        if !read {
          m_errors := m_errors[..errorCount];
        }
        if skip.kind == until || skip.kind == EndOfStream {
          break;
        }
      }
      m_errors := m_errors[..errorCount];
      return false;
    }

    method AddErrorAndRecover(message: string, token: Token, until: Kind) returns (ok: bool)
      requires Valid()
      modifies this`m_current, this`m_errors
      ensures Valid() && !ok && m_errors == old(m_errors) + [Error(message, token)]
      ensures Unread() == Recover(old(Unread()), until)
    {
      var _ := AddError(message, token);
      ok := RecoverFromError(until);
    }

    // ----- decoding

    /** `DecodeUnicodeEscapeSequence` at `current` in the characters between the quotes. */
    method DecodeUnicodeEscapeSequence(token: Token, inner: Bytes, start: nat)
      returns (ok: bool, current: nat, unicode: nat)
      requires start <= |inner|
      modifies this`m_errors
      ensures match JsonStrings.DecodeUnit(inner[start..])
              case Unit(value) => ok && unicode == value && current == start + 4 && m_errors == old(m_errors)
              case BadUnit(message) => !ok && m_errors == old(m_errors) + [Error(message, token)]
    {
      hide JsonStrings.HexValue;
      current, unicode := start, 0;
      if |inner| - current < 4 {
        ok := AddError(JsonStrings.FOUR_DIGITS, token);
        return;
      }
      ghost var s := inner[start..];
      var value := 0;
      var index := 0;
      while index < 4
        invariant 0 <= index <= 4 && current == start + index && m_errors == old(m_errors) && value >= 0
        invariant forall k :: 0 <= k < index ==> JsonStrings.HexValue(s[k]) >= 0
        invariant value == Horner(s, index)
      {
        var c := inner[current];
        assert c == s[index];
        current := current + 1;
        value := value * 16;
        if JsonStrings.HexValue(c) >= 0 {
          value := value + JsonStrings.HexValue(c);
        } else {
          ok := AddError(JsonStrings.HEX_DIGIT, token);
          return;
        }
        index := index + 1;
      }
      FourDigits(s);
      unicode := value;
      ok := true;
    }

    static ghost function Horner(s: Bytes, n: nat): int
      requires n <= |s|
    {
      if n == 0 then 0 else Horner(s, n - 1) * 16 + JsonStrings.HexValue(s[n - 1])
    }

    static lemma FourDigits(s: Bytes)
      requires |s| >= 4
      ensures Horner(s, 4) == ((JsonStrings.HexValue(s[0]) * 16 + JsonStrings.HexValue(s[1])) * 16
                               + JsonStrings.HexValue(s[2])) * 16 + JsonStrings.HexValue(s[3])
    {
      hide JsonStrings.HexValue;
      assert Horner(s, 1) == Horner(s, 0) * 16 + JsonStrings.HexValue(s[0]);
      assert Horner(s, 3) == Horner(s, 2) * 16 + JsonStrings.HexValue(s[2]);
      assert Horner(s, 2) == JsonStrings.HexValue(s[0]) * 16 + JsonStrings.HexValue(s[1]);
    }

    method DecodeUnicodeCodePoint(token: Token, inner: Bytes, start: nat) returns (ok: bool, current: nat, unicode: nat)
      requires start <= |inner|
      modifies this`m_errors
      ensures match JsonStrings.DecodePoint(inner[start..])
              case Point(value, used) => ok && unicode == value && current == start + used && m_errors == old(m_errors)
              case BadPoint(message) => !ok && m_errors == old(m_errors) + [Error(message, token)]
    {
      hide JsonStrings.DecodeUnit;
      ghost var s := inner[start..];
      ok, current, unicode := DecodeUnicodeEscapeSequence(token, inner, start);
      if !ok {
        return;
      }
      if unicode >= 0xD800 && unicode <= 0xDBFF {
        if |inner| - current < 6 {
          ok := AddError(JsonStrings.SIX_MORE, token);
          return;
        }
        assert inner[current] == s[4] && inner[current + 1] == s[5] && inner[current + 2..] == s[6..];
        if inner[current] == JsonStrings.BACKSLASH && inner[current + 1] == JsonStrings.LETTER_U {
          var surrogatePair;
          ok, current, surrogatePair := DecodeUnicodeEscapeSequence(token, inner, current + 2);
          if !ok {
            return;
          }
          unicode := 0x1_0000 + unicode % 0x400 * 0x400 + surrogatePair % 0x400;
        } else {
          ok := AddError(JsonStrings.SECOND_HALF, token);
          return;
        }
      }
    }

    /** One turn of the loop of `DecodeString`. */
    static lemma TextStep(s: Bytes, decoded: Bytes)
      requires s != []
      ensures var d := JsonStrings.Prepend(decoded, JsonStrings.DecodeText(s));
        if s[0] == JsonStrings.QUOTE then d == JsonStrings.Text(decoded)
        else if s[0] != JsonStrings.BACKSLASH then
          d == JsonStrings.Prepend(decoded + [s[0]], JsonStrings.DecodeText(s[1..]))
        else if |s| == 1 then d == JsonStrings.Bad(JsonStrings.EMPTY_ESCAPE)
        else if s[1] == JsonStrings.LETTER_U then
          match JsonStrings.DecodePoint(s[2..])
          case Point(value, used) =>
            d == JsonStrings.Prepend(decoded + Utf8.Encode(value), JsonStrings.DecodeText(s[2 + used..]))
          case BadPoint(message) => d == JsonStrings.Bad(message)
        else if JsonStrings.Unescaped(s[1]) < 0 then d == JsonStrings.Bad(JsonStrings.BAD_ESCAPE)
        else d == JsonStrings.Prepend(decoded + [JsonStrings.Unescaped(s[1])], JsonStrings.DecodeText(s[2..]))
    {
      hide JsonStrings.DecodePoint, JsonStrings.Unescaped, Utf8.Encode, JsonStrings.DecodeText, JsonStrings.Prepend;
      if s[0] == JsonStrings.BACKSLASH && |s| > 1 {
        if s[1] == JsonStrings.LETTER_U {
          UnicodeStep(s, decoded);
        } else {
          LetterStep(s, decoded);
        }
      } else {
        TextUnfolds(s);
        PrependUnfolds(decoded);
        PrependTwice(decoded, [s[0]], JsonStrings.DecodeText(s[1..]));
      }
    }

    static lemma UnicodeStep(s: Bytes, decoded: Bytes)
      requires |s| > 1 && s[0] == JsonStrings.BACKSLASH && s[1] == JsonStrings.LETTER_U
      ensures var d := JsonStrings.Prepend(decoded, JsonStrings.DecodeText(s));
        match JsonStrings.DecodePoint(s[2..])
        case Point(value, used) =>
          d == JsonStrings.Prepend(decoded + Utf8.Encode(value), JsonStrings.DecodeText(s[2 + used..]))
        case BadPoint(message) => d == JsonStrings.Bad(message)
    {
      hide JsonStrings.DecodePoint, JsonStrings.Unescaped, Utf8.Encode, JsonStrings.DecodeText, JsonStrings.Prepend;
      TextUnfolds(s);
      match JsonStrings.DecodePoint(s[2..])
      case Point(value, used) =>
        PrependTwice(decoded, Utf8.Encode(value), JsonStrings.DecodeText(s[2 + used..]));
      case BadPoint(message) => PrependUnfolds(decoded);
    }

    static lemma LetterStep(s: Bytes, decoded: Bytes)
      requires |s| > 1 && s[0] == JsonStrings.BACKSLASH && s[1] != JsonStrings.LETTER_U
      ensures var d := JsonStrings.Prepend(decoded, JsonStrings.DecodeText(s));
        if JsonStrings.Unescaped(s[1]) < 0 then d == JsonStrings.Bad(JsonStrings.BAD_ESCAPE)
        else d == JsonStrings.Prepend(decoded + [JsonStrings.Unescaped(s[1])], JsonStrings.DecodeText(s[2..]))
    {
      hide JsonStrings.DecodePoint, JsonStrings.Unescaped, Utf8.Encode, JsonStrings.DecodeText, JsonStrings.Prepend;
      TextUnfolds(s);
      PrependUnfolds(decoded);
      if JsonStrings.Unescaped(s[1]) >= 0 {
        PrependTwice(decoded, [JsonStrings.Unescaped(s[1])], JsonStrings.DecodeText(s[2..]));
      }
    }

    static lemma PrependTwice(a: Bytes, b: Bytes, d: JsonStrings.Decoded)
      ensures JsonStrings.Prepend(a, JsonStrings.Prepend(b, d)) == JsonStrings.Prepend(a + b, d)
    {
      if d.Text? {
        assert a + (b + d.text) == a + b + d.text;
      }
    }

    static lemma PrependUnfolds(a: Bytes)
      ensures JsonStrings.Prepend(a, JsonStrings.Text([])) == JsonStrings.Text(a)
      ensures forall message :: JsonStrings.Prepend(a, JsonStrings.Bad(message)) == JsonStrings.Bad(message)
    {
    }

    static lemma TextUnfolds(s: Bytes)
      requires s != []
      ensures JsonStrings.DecodeText(s) ==
        if s[0] == JsonStrings.QUOTE then JsonStrings.Text([])
        else if s[0] != JsonStrings.BACKSLASH then JsonStrings.Prepend([s[0]], JsonStrings.DecodeText(s[1..]))
        else if |s| == 1 then JsonStrings.Bad(JsonStrings.EMPTY_ESCAPE)
        else if s[1] == JsonStrings.LETTER_U then
          match JsonStrings.DecodePoint(s[2..])
          case Point(value, used) => JsonStrings.Prepend(Utf8.Encode(value), JsonStrings.DecodeText(s[2 + used..]))
          case BadPoint(message) => JsonStrings.Bad(message)
        else if JsonStrings.Unescaped(s[1]) < 0 then JsonStrings.Bad(JsonStrings.BAD_ESCAPE)
        else JsonStrings.Prepend([JsonStrings.Unescaped(s[1])], JsonStrings.DecodeText(s[2..]))
    {
      hide JsonStrings.DecodePoint, JsonStrings.Unescaped, Utf8.Encode, JsonStrings.Prepend;
    }

    static lemma NoText(decoded: Bytes)
      ensures JsonStrings.Prepend(decoded, JsonStrings.DecodeText([])) == JsonStrings.Text(decoded)
    {
    }

    /** `DecodeString`, on the characters between the quotes. */
    method DecodeString(token: Token) returns (ok: bool, decoded: Bytes)
      modifies this`m_errors
      ensures match StringOf(token.text)
              case Text(text) => ok && decoded == text && m_errors == old(m_errors)
              case Bad(message) => !ok && m_errors == old(m_errors) + [Error(message, token)]
    {
      hide JsonStrings.DecodePoint, JsonStrings.Unescaped, JsonStrings.DecodeText, Utf8.Encode;
      decoded := [];
      if |token.text| < 2 {
        return true, [];
      }
      var inner := token.text[1..|token.text| - 1];
      var current := 0;
      assert inner[0..] == inner;
      PrependNothing(JsonStrings.DecodeText(inner));
      hide StringOf, JsonStrings.Prepend;
      while current != |inner|
        invariant current <= |inner| && m_errors == old(m_errors)
        invariant StringOf(token.text) == JsonStrings.Prepend(decoded, JsonStrings.DecodeText(inner[current..]))
        decreases |inner| - current
      {
        ghost var s := inner[current..];
        TextStep(s, decoded);
        var c := inner[current];
        current := current + 1;
        assert s[1..] == inner[current..];
        if c == JsonStrings.QUOTE {
          break;
        }
        if c == JsonStrings.BACKSLASH {
          if current == |inner| {
            ok := AddError(JsonStrings.EMPTY_ESCAPE, token);
            return;
          }
          var escape := inner[current];
          current := current + 1;
          assert s[2..] == inner[current..];
          if escape == JsonStrings.LETTER_U {
            var unicode;
            ghost var before := current;
            ok, current, unicode := DecodeUnicodeCodePoint(token, inner, current);
            if !ok {
              return;
            }
            assert inner[current..] == s[2 + (current - before)..];
            decoded := decoded + Utf8.Encode(unicode);
          } else if JsonStrings.Unescaped(escape) >= 0 {
            decoded := decoded + [JsonStrings.Unescaped(escape)];
          } else {
            ok := AddError(JsonStrings.BAD_ESCAPE, token);
            return;
          }
        } else {
          decoded := decoded + [c];
        }
      }
      NoText(decoded);
      ok := true;
    }

    static lemma PrependNothing(d: JsonStrings.Decoded)
      ensures JsonStrings.Prepend([], d) == d
    {
    }

    // ----- values

    /** The reader ended where `r` says: below the innermost node the stack is as it was. */
    ghost predicate Ends(ok: bool, r: Outcome, below: seq<JsonValue>)
      reads this
    {
      Valid() && ok == r.ok && Unread() == r.rest && m_errors == r.errors && m_nodes == below + [r.value]
    }

    method SetCurrentValue(value: JsonValue)
      requires m_nodes != []
      modifies this`m_nodes
      ensures m_nodes == old(m_nodes)[..|old(m_nodes)| - 1] + [value]
    {
      m_nodes := m_nodes[..|m_nodes| - 1] + [value];
    }

    function CurrentValue(): JsonValue
      requires m_nodes != []
      reads this`m_nodes
    {
      m_nodes[|m_nodes| - 1]
    }

    method DecodeNumber(token: Token) returns (ok: bool)
      requires Valid() && m_nodes != [] && token.text != []
      modifies this`m_nodes, this`m_errors
      ensures Ends(ok, NumberValue(token, Unread(), old(CurrentValue()), old(m_errors), readable),
        old(m_nodes)[..|old(m_nodes)| - 1])
    {
      var number := JsonNumbers.DecodeNumberLoop(token.text);
      match number {
        case Integer(n) => SetCurrentValue(Int(n));
        case Floating =>
          if !readable(token.text) {
            ok := AddError(NOT_A_NUMBER, token);
            return;
          }
          SetCurrentValue(Real(token.text));
      }
      ok := true;
    }

    method DecodeStringValue(token: Token) returns (ok: bool)
      requires Valid() && m_nodes != []
      modifies this`m_nodes, this`m_errors
      ensures Ends(ok, StringValue(token, Unread(), old(CurrentValue()), old(m_errors)),
        old(m_nodes)[..|old(m_nodes)| - 1])
    {
      var decoded;
      ok, decoded := DecodeString(token);
      if ok {
        SetCurrentValue(Str(decoded));
      }
    }

    method ReadValue() returns (ok: bool)
      requires Valid() && m_nodes != []
      modifies this`m_current, this`m_errors, this`m_nodes
      ensures Ends(ok, JsonParsing.ReadValue(old(Unread()), old(CurrentValue()), old(m_errors), readable),
                   old(m_nodes)[..|old(m_nodes)| - 1])
      decreases |m_document| - m_current, 2
    {
      hide JsonParsing.ReadToken, ReadMembers, JsonParsing.ReadArray, NumberValue, StringValue;
      ghost var s := Unread();
      var _, token := ReadToken();
      match token.kind {
        case ObjectBegin => ok := ReadObject();
        case ArrayBegin => ok := ReadArray();
        case NumberToken =>
          NumberHasText(s);
          ok := DecodeNumber(token);
        case StringToken => ok := DecodeStringValue(token);
        case TrueToken =>
          SetCurrentValue(Bool(true));
          ok := true;
        case FalseToken =>
          SetCurrentValue(Bool(false));
          ok := true;
        case NullToken =>
          SetCurrentValue(Null);
          ok := true;
        case _ =>
          ok := false;
      }
    }

    static lemma NumberHasText(s: Bytes)
      ensures JsonParsing.ReadToken(s).token.kind != EndOfStream ==> JsonParsing.ReadToken(s).token.text != []
    {
      hide Front, JsonParsing.SkipSpaces;
    }

    method ReadArray() returns (ok: bool)
      requires Valid() && m_nodes != []
      modifies this`m_current, this`m_errors, this`m_nodes
      ensures Ends(ok, JsonParsing.ReadArray(old(Unread()), old(m_errors), readable),
        old(m_nodes)[..|old(m_nodes)| - 1])
      decreases |m_document| - m_current, 4
    {
      hide JsonParsing.ReadToken, JsonParsing.ReadValue, ReadElements, Recover, JsonParsing.SkipSpaces;
      ghost var below, result := m_nodes[..|m_nodes| - 1], JsonParsing.ReadArray(Unread(), m_errors, readable);
      SetCurrentValue(Array([]));
      SkipSpaces();
      if m_current != |m_document| && m_document[m_current] == 0x5D {
        ClosingBracket(Unread());
        var _, _ := ReadToken();
        return true;
      }
      ok := true;
      var done := false;
      while !done
        invariant Valid() && m_current >= old(m_current)
        invariant done ==> Ends(ok, result, below)
        invariant !done ==>
          && |m_nodes| == |below| + 1 && m_nodes[..|below|] == below && CurrentValue().Array?
          && ReadElements(Unread(), CurrentValue().elems, m_errors, readable) == result
        decreases !done, |m_document| - m_current
      {
        ok, done := ReadElement(below);
      }
    }

    /** One turn of the loop of `ReadArray`; `done` when the array ends here. */
    method ReadElement(ghost below: seq<JsonValue>) returns (ok: bool, done: bool)
      requires Valid() && |m_nodes| == |below| + 1 && m_nodes[..|below|] == below && CurrentValue().Array?
      modifies this`m_current, this`m_errors, this`m_nodes
      ensures Valid() && m_current >= old(m_current)
      ensures done ==>
        Ends(ok, ReadElements(old(Unread()), old(CurrentValue()).elems, old(m_errors), readable), below)
      ensures !done ==>
        && m_current > old(m_current)
        && |m_nodes| == |below| + 1 && m_nodes[..|below|] == below && CurrentValue().Array?
        && ReadElements(Unread(), CurrentValue().elems, m_errors, readable)
           == ReadElements(old(Unread()), old(CurrentValue()).elems, old(m_errors), readable)
      decreases |m_document| - m_current, 3
    {
      hide JsonParsing.ReadToken, JsonParsing.ReadValue, Recover;
      done := true;
      m_nodes := m_nodes + [Null];
      ok := ReadValue();
      var item := CurrentValue();
      m_nodes := m_nodes[..|m_nodes| - 1];
      SetCurrentValue(Array(CurrentValue().elems + [item]));
      if !ok {
        ok := RecoverFromError(ArrayEnd);
        return;
      }
      var token;
      ok, token := ReadToken();
      var badTokenType := token.kind != ArraySeparator && token.kind != ArrayEnd;
      if !ok || badTokenType {
        ok := AddErrorAndRecover(MISSING_SEPARATOR, token, ArrayEnd);
        return;
      }
      if token.kind == ArrayEnd {
        return;
      }
      done := false;
    }

    static lemma ClosingBracket(s: Bytes)
      requires s != [] && s[0] == 0x5D
      ensures JsonParsing.ReadToken(s) == Lexed(Token(ArrayEnd, [0x5D]), s[1..])
    {
      assert JsonParsing.SkipSpaces(s) == s && Front(s) == (ArrayEnd, 1);
      assert s[..1] == [0x5D];
    }

    method ReadObject() returns (ok: bool)
      requires Valid() && m_nodes != []
      modifies this`m_current, this`m_errors, this`m_nodes
      ensures Ends(ok, ReadMembers(old(Unread()), [], [], old(m_errors), readable), old(m_nodes)[..|old(m_nodes)| - 1])
      decreases |m_document| - m_current, 3
    {
      hide JsonParsing.ReadToken, JsonParsing.ReadValue, Recover, StringOf, Insert, Lookup;
      ghost var below, result := m_nodes[..|m_nodes| - 1], ReadMembers(Unread(), [], [], m_errors, readable);
      var name: Bytes := [];
      SetCurrentValue(Object([]));
      var tokenName;
      while true
        invariant Valid() && m_current >= old(m_current)
        invariant |m_nodes| == |below| + 1 && m_nodes[..|below|] == below && CurrentValue().Object?
        invariant ReadMembers(Unread(), CurrentValue().members, name, m_errors, readable) == result
        decreases |m_document| - m_current
      {
        ok, tokenName := ReadToken();
        if !ok {
          break;
        }
        if tokenName.kind == ObjectEnd && name == [] {
          return true;
        }
        if tokenName.kind == StringToken {
          ok, name := DecodeString(tokenName);
          if !ok {
            ok := RecoverFromError(ObjectEnd);
            return;
          }
        } else {
          break;
        }
        var done;
        ok, done := ReadMemberValue(name, below);
        if done {
          return;
        }
      }
      ok := AddErrorAndRecover(MISSING_NAME, tokenName, ObjectEnd);
    }

    /** The part of the loop behind the name; `done` when the object ends here. */
    method ReadMemberValue(name: Bytes, ghost below: seq<JsonValue>) returns (ok: bool, done: bool)
      requires Valid() && |m_nodes| == |below| + 1 && m_nodes[..|below|] == below && CurrentValue().Object?
      modifies this`m_current, this`m_errors, this`m_nodes
      ensures Valid() && m_current >= old(m_current)
      ensures done ==>
        Ends(ok, ReadMember(old(Unread()), old(CurrentValue()).members, name, old(m_errors), readable), below)
      ensures !done ==>
        && m_current > old(m_current)
        && |m_nodes| == |below| + 1 && m_nodes[..|below|] == below && CurrentValue().Object?
        && ReadMembers(Unread(), CurrentValue().members, name, m_errors, readable)
           == ReadMember(old(Unread()), old(CurrentValue()).members, name, old(m_errors), readable)
      decreases |m_document| - m_current, 2
    {
      hide JsonParsing.ReadToken, JsonParsing.ReadValue, Recover, Insert, Lookup, ReadMembers;
      done := true;
      var colon;
      ok, colon := ReadToken();
      if !ok || colon.kind != MemberSeparator {
        ok := AddErrorAndRecover(MISSING_COLON, colon, ObjectEnd);
        return;
      }
      m_nodes := m_nodes + [Lookup(CurrentValue().members, name)];
      ok := ReadValue();
      var value := CurrentValue();
      m_nodes := m_nodes[..|m_nodes| - 1];
      SetCurrentValue(Object(Insert(CurrentValue().members, name, value)));
      if !ok {
        ok := RecoverFromError(ObjectEnd);
        return;
      }
      ok, done := ReadMemberEnd(name, below);
    }

    /** Behind a member: the end of the object, a comma, or an error. */
    method ReadMemberEnd(name: Bytes, ghost below: seq<JsonValue>) returns (ok: bool, done: bool)
      requires Valid() && |m_nodes| == |below| + 1 && m_nodes[..|below|] == below && CurrentValue().Object?
      modifies this`m_current, this`m_errors, this`m_nodes
      ensures Valid() && m_current >= old(m_current)
      ensures var Lexed(comma, rest) := JsonParsing.ReadToken(old(Unread()));
              var value := old(CurrentValue());
              if comma.kind == ObjectEnd then done && Ends(ok, Outcome(true, value, rest, old(m_errors)), below)
              else if comma.kind == ArraySeparator then
                !done && Unread() == rest && m_errors == old(m_errors) && m_nodes == old(m_nodes)
              else
                var r := Failed(MISSING_MEMBER_SEPARATOR, comma, value, rest, old(m_errors), ObjectEnd);
                done && Ends(ok, r, below)
    {
      hide JsonParsing.ReadToken, Recover;
      done := true;
      var comma;
      ok, comma := ReadToken();
      if !ok || (comma.kind != ObjectEnd && comma.kind != ArraySeparator) {
        ok := AddErrorAndRecover(MISSING_MEMBER_SEPARATOR, comma, ObjectEnd);
        return;
      }
      if comma.kind == ObjectEnd {
        ok := true;
        return;
      }
      done := false;
    }

    /** `Parse`: the value read becomes the root. */
    method Parse(document: Bytes, root: JsonValue) returns (ok: bool, value: JsonValue)
      modifies this
      ensures (ok, value) == JsonParsing.Parse(document, root, readable)
      ensures Valid() && m_document == document
    {
      hide JsonParsing.ReadValue;
      m_document, m_current, m_errors := document, 0, [];
      m_nodes := [root];
      assert Unread() == document;
      var successful := ReadValue();
      value := CurrentValue();
      SkipSpaces();
      ok := successful && m_current == |m_document|;
    }
  }
}
