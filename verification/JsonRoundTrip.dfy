/** Parsing undoes printing: whatever layout the writer chose for each array, the reader
    rebuilds the tree. */
module JsonRoundTrip {
  import opened Bytes
  import opened JsonValues
  import opened NameOrder
  import opened JsonParsing
  import opened JsonPrinting
  import JsonNumbers
  import JsonStrings
  import Utf8

  // ----- the trees that survive

  predicate GoodName(name: Bytes) {
    Utf8.WellFormed(name) && 0 !in name
  }

  /** What `JsonValue` can hold, reals apart: 64-bit integers and members in the order of
      their names. */
  predicate RealFree(v: JsonValue) {
    match v
    case Null => true
    case Bool(_) => true
    case Int(n) => JsonNumbers.MIN64 <= n <= JsonNumbers.MAX64
    case Real(_) => false
    case Str(_) => true
    case Array(elems) => |elems| < 0x8000_0000 && forall e :: e in elems ==> RealFree(e)
    case Object(members) => Sorted(members) && forall m :: m in members ==> RealFree(m.value)
  }

  /** Well-formed text, names without NUL bytes, and integers from -9223372036854775799 up. */
  predicate Printable(v: JsonValue) {
    match v
    case Null => true
    case Bool(_) => true
    case Int(n) => n >= -9223372036854775799
    case Real(_) => false
    case Str(s) => Utf8.WellFormed(s)
    case Array(elems) => forall e :: e in elems ==> Printable(e)
    case Object(members) => forall m :: m in members ==> GoodName(m.name) && Printable(m.value)
  }

  // ----- what comes back

  datatype Back = Kept(value: JsonValue) | Lost

  /** The tree the reader makes of a written value; `Lost` when it rejects the document. */
  function ReadBack(v: JsonValue, readable: Bytes -> bool): Back
    requires RealFree(v)
    decreases v, 1
  {
    match v
    case Null => Kept(Null)
    case Bool(b) => Kept(Bool(b))
    case Int(n) => IntBack(n, readable)
    case Str(s) => Kept(Str(JsonStrings.Repaired(s)))
    case Array(elems) => ElementsBack(elems, [], readable)
    case Object(members) => MembersBack(members, [], readable)
  }

  function IntBack(n: int, readable: Bytes -> bool): Back {
    match JsonNumbers.DecodeNumber(IntTextOf(n))
    case Integer(m) => Kept(Int(m))
    case Floating => if readable(IntTextOf(n)) then Kept(Real(IntTextOf(n))) else Lost
  }

  function IntTextOf(n: int): (t: Bytes)
    ensures t != []
  {
    JsonNumbers.IntText(n)
  }

  function ElementsBack(es: seq<JsonValue>, done: seq<JsonValue>, readable: Bytes -> bool): Back
    requires forall e :: e in es ==> RealFree(e)
    decreases es, 0
  {
    if es == [] then Kept(Array(done))
    else
      match ReadBack(es[0], readable)
      case Lost => Lost
      case Kept(x) => ElementsBack(es[1..], done + [x], readable)
  }

  /** The name the reader sees. */
  function NameBack(name: Bytes): Bytes {
    JsonStrings.Repaired(CString(name))
  }

  function MembersBack(ms: seq<Member>, done: seq<Member>, readable: Bytes -> bool): Back
    requires forall m :: m in ms ==> RealFree(m.value)
    decreases ms, 0
  {
    if ms == [] then Kept(Object(done))
    else
      match ReadBack(ms[0].value, readable)
      case Lost => Lost
      case Kept(x) => MembersBack(ms[1..], Insert(done, NameBack(ms[0].name), x), readable)
  }

  /** `r` is what reading `back` and stopping in front of `rest` looks like. */
  predicate IsBack(r: Outcome, back: Back, rest: Bytes, errors: seq<Error>) {
    match back
    case Kept(x) => r == Outcome(true, x, rest, errors)
    case Lost => !r.ok
  }

  predicate Blank(s: Bytes) {
    forall i :: 0 <= i < |s| ==> IsSpace(s[i])
  }

  /** What may follow a number without being taken for a part of it. */
  predicate Delimited(rest: Bytes) {
    rest == [] || !(JsonNumbers.IsDigit(rest[0]) || rest[0] == 0x2E || rest[0] == 0x65 || rest[0] == 0x45)
  }

  // ----- blanks

  lemma {:induction false} BlanksSkipped(b: Bytes, s: Bytes)
    requires Blank(b)
    ensures SkipSpaces(b + s) == SkipSpaces(s)
  {
    if b == [] {
      assert b + s == s;
    } else {
      assert IsSpace(b[0]);
      assert (b + s)[1..] == b[1..] + s;
      BlanksSkipped(b[1..], s);
    }
  }

  lemma TokenBehindBlanks(b: Bytes, s: Bytes)
    requires Blank(b)
    ensures ReadToken(b + s) == ReadToken(s)
  {
    hide Front, SkipSpaces;
    BlanksSkipped(b, s);
  }

  lemma ValueBehindBlanks(b: Bytes, s: Bytes, current: JsonValue, errors: seq<Error>, readable: Bytes -> bool)
    requires Blank(b)
    ensures ReadValue(b + s, current, errors, readable) == ReadValue(s, current, errors, readable)
  {
    hide ReadToken, NumberValue, StringValue, ReadMembers, ReadArray;
    TokenBehindBlanks(b, s);
  }

  lemma IndentIsBlank(document: Bytes, indent: Bytes)
    requires Blank(indent)
    ensures document <= WriteIndent(document, indent)
    ensures Blank(WriteIndent(document, indent)[|document|..])
  {
  }

  // ----- single tokens

  lemma PunctuationToken(c: Byte, rest: Bytes)
    requires c in {0x7B, 0x7D, 0x5B, 0x5D, 0x2C, 0x3A}
    ensures ReadToken([c] + rest) == Lexed(Token(Front([c]).0, [c]), rest)
  {
    var s := [c] + rest;
    assert !IsSpace(c) && SkipSpaces(s) == s;
    assert s[..1] == [c] && s[1..] == rest;
    assert Front(s) == Front([c]);
  }

  lemma KeywordToken(keyword: Bytes, kind: Kind, rest: Bytes)
    requires (keyword, kind) in {(NULL_TEXT, NullToken), (TRUE_TEXT, TrueToken), (FALSE_TEXT, FalseToken)}
    ensures ReadToken(keyword + rest) == Lexed(Token(kind, keyword), rest)
  {
    var s := keyword + rest;
    assert keyword <= s && s[0] == keyword[0];
    assert Front(s) == (kind, |keyword|);
    assert s[..|keyword|] == keyword && s[|keyword|..] == rest;
  }

  lemma {:induction false} DigitRunOf(digits: Bytes, rest: Bytes)
    requires forall i :: 0 <= i < |digits| ==> JsonNumbers.IsDigit(digits[i])
    requires rest == [] || !JsonNumbers.IsDigit(rest[0])
    ensures DigitRun(digits + rest) == |digits|
  {
    if digits == [] {
      assert digits + rest == rest;
    } else {
      assert JsonNumbers.IsDigit(digits[0]);
      assert (digits + rest)[1..] == digits[1..] + rest;
      DigitRunOf(digits[1..], rest);
    }
  }

  predicate IsNumberText(text: Bytes) {
    && text != []
    && (JsonNumbers.IsDigit(text[0]) || text[0] == JsonNumbers.MINUS)
    && forall i :: 1 <= i < |text| ==> JsonNumbers.IsDigit(text[i])
  }

  lemma NumberTextToken(text: Bytes, rest: Bytes)
    requires IsNumberText(text) && Delimited(rest)
    ensures ReadToken(text + rest) == Lexed(Token(NumberToken, text), rest)
  {
    var s := text + rest;
    assert s[1..] == text[1..] + rest;
    DigitRunOf(text[1..], rest);
    TailIsRun(text[1..], rest);
    assert Front(s) == (NumberToken, |text|) by { hide NumberTail; }
    assert s[..|text|] == text && s[|text|..] == rest;
    hide Front;
  }

  lemma TailIsRun(digits: Bytes, rest: Bytes)
    requires Delimited(rest) && DigitRun(digits + rest) == |digits|
    ensures NumberTail(digits + rest) == |digits|
  {
    hide DigitRun;
    if rest != [] {
      assert (digits + rest)[|digits|] == rest[0];
    }
  }

  lemma IntIsNumberText(n: int)
    ensures IsNumberText(JsonNumbers.IntText(n))
  {
    hide JsonNumbers.Digits;
    JsonNumbers.DigitsAreDigits(if n == JsonNumbers.MIN64 then 1 else if n < 0 then -n else n);
  }

  lemma StringTextToken(s: Bytes, rest: Bytes)
    ensures ReadToken(JsonStrings.Quoted(s) + rest) == Lexed(Token(StringToken, JsonStrings.Quoted(s)), rest)
  {
    hide JsonStrings.Quoted, JsonStrings.ScanString, JsonStrings.DecodeText;
    JsonStrings.StringRoundTrip(s, rest);
    var q := JsonStrings.Quoted(s);
    var t := q + rest;
    assert t[1..] == q[1..] + rest;
    assert SkipSpaces(t) == t;
    assert Front(t) == (StringToken, |q|);
    assert t[..|q|] == q && t[|q|..] == rest;
  }

  lemma StringBack(s: Bytes)
    ensures StringOf(JsonStrings.Quoted(s)) == JsonStrings.Text(JsonStrings.Repaired(s))
  {
    hide JsonStrings.Quoted, JsonStrings.EscapedText, JsonStrings.DecodeText, JsonStrings.Repaired;
    JsonStrings.QuotedIsEscaped(s);
    JsonStrings.EscapedDecodes(s);
    assert JsonStrings.Quoted(s)[1..|JsonStrings.Quoted(s)| - 1] == JsonStrings.EscapedText(s);
  }

  // ----- simple values

  lemma SimpleReadsBack(v: JsonValue, rest: Bytes, current: JsonValue, errors: seq<Error>,
                        realText: Bytes -> Bytes, readable: Bytes -> bool)
    requires RealFree(v) && IsSimple(v) && Delimited(rest)
    ensures var s := SimpleText(v, realText) + rest;
            && ReadToken(s).token.kind != ArrayEnd
            && IsBack(ReadValue(s, current, errors, readable), ReadBack(v, readable), rest, errors)
  {
    hide ReadToken, JsonStrings.Quoted, StringOf, JsonNumbers.IntText, JsonNumbers.DecodeNumber, JsonStrings.Repaired;
    match v {
      case Null => KeywordToken(NULL_TEXT, NullToken, rest);
      case Bool(b) =>
        if b {
          KeywordToken(TRUE_TEXT, TrueToken, rest);
        } else {
          KeywordToken(FALSE_TEXT, FalseToken, rest);
        }
      case Int(n) =>
        IntIsNumberText(n);
        NumberTextToken(JsonNumbers.IntText(n), rest);
      case Str(text) =>
        StringTextToken(text, rest);
        StringBack(text);
      case Array(_) => EmptyArrayReadsBack(rest, current, errors, readable);
      case Object(_) => EmptyObjectReadsBack(rest, current, errors, readable);
    }
  }

  lemma EmptyArrayReadsBack(rest: Bytes, current: JsonValue, errors: seq<Error>, readable: Bytes -> bool)
    ensures ReadToken([0x5B, 0x5D] + rest).token.kind == ArrayBegin
    ensures ReadValue([0x5B, 0x5D] + rest, current, errors, readable) == Outcome(true, Array([]), rest, errors)
  {
    hide ReadToken;
    var tail := [0x5D] + rest;
    assert [0x5B, 0x5D] + rest == [0x5B] + tail;
    PunctuationToken(0x5B, tail);
    assert SkipSpaces(tail) == tail && tail[1..] == rest;
  }

  lemma EmptyObjectReadsBack(rest: Bytes, current: JsonValue, errors: seq<Error>, readable: Bytes -> bool)
    ensures ReadToken([0x7B, 0x7D] + rest).token.kind == ObjectBegin
    ensures ReadValue([0x7B, 0x7D] + rest, current, errors, readable) == Outcome(true, Object([]), rest, errors)
  {
    hide ReadToken;
    var tail := [0x7D] + rest;
    assert [0x7B, 0x7D] + rest == [0x7B] + tail;
    PunctuationToken(0x7B, tail);
    PunctuationToken(0x7D, rest);
  }

  // ----- unfolding the reader

  lemma ObjectStarts(s: Bytes, current: JsonValue, errors: seq<Error>, readable: Bytes -> bool)
    requires ReadToken(s).token.kind == ObjectBegin
    ensures ReadValue(s, current, errors, readable) == ReadMembers(ReadToken(s).rest, [], [], errors, readable)
  {
    hide ReadToken, ReadMembers, ReadArray;
  }

  /** An array that does not close at once goes straight to its elements. */
  lemma ArrayStarts(s: Bytes, current: JsonValue, errors: seq<Error>, readable: Bytes -> bool)
    requires ReadToken(s).token.kind == ArrayBegin && ReadToken(ReadToken(s).rest).token.kind != ArrayEnd
    ensures ReadValue(s, current, errors, readable) == ReadElements(ReadToken(s).rest, [], errors, readable)
  {
    hide ReadElements;
    var t := ReadToken(s).rest;
    assert ReadValue(s, current, errors, readable) == ReadArray(t, errors, readable) by {
      hide ReadToken, ReadArray;
    }
    hide ReadValue;
    ElementsBehindBlanks(t, [], errors, readable);
  }

  lemma ElementsBehindBlanks(t: Bytes, elems: seq<JsonValue>, errors: seq<Error>, readable: Bytes -> bool)
    ensures ReadElements(SkipSpaces(t), elems, errors, readable) == ReadElements(t, elems, errors, readable)
  {
    hide Front, NumberValue, StringValue, ReadMembers, ReadArray, Recover;
    SkippedIsSkipped(t);
    assert ReadToken(SkipSpaces(t)) == ReadToken(t);
    assert ReadValue(SkipSpaces(t), Null, errors, readable) == ReadValue(t, Null, errors, readable) by {
      hide ReadToken, ReadElements;
    }
    hide ReadValue, ReadToken;
  }

  lemma {:induction false} SkippedIsSkipped(t: Bytes)
    ensures SkipSpaces(SkipSpaces(t)) == SkipSpaces(t)
  {
    if t != [] && IsSpace(t[0]) {
      SkippedIsSkipped(t[1..]);
    }
  }

  lemma ElementStep(s: Bytes, done: seq<JsonValue>, back: Back, tail: Bytes, errors: seq<Error>,
                    readable: Bytes -> bool)
    requires IsBack(ReadValue(s, Null, errors, readable), back, tail, errors)
    ensures var r := ReadElements(s, done, errors, readable);
      match back
      case Lost => !r.ok
      case Kept(item) =>
        && (ReadToken(tail).token.kind == ArrayEnd ==>
            r == Outcome(true, Array(done + [item]), ReadToken(tail).rest, errors))
        && (ReadToken(tail).token.kind == ArraySeparator ==>
            r == ReadElements(ReadToken(tail).rest, done + [item], errors, readable))
  {
    hide ReadValue, ReadToken;
  }

  lemma MemberStep(s: Bytes, done: seq<Member>, name: Bytes, name': Bytes, back: Back, valueText: Bytes, tail: Bytes,
                   errors: seq<Error>, readable: Bytes -> bool)
    requires ReadToken(s).token.kind == StringToken
    requires StringOf(ReadToken(s).token.text) == JsonStrings.Text(name')
    requires ReadToken(ReadToken(s).rest) == Lexed(Token(MemberSeparator, [0x3A]), valueText)
    requires IsBack(ReadValue(valueText, Lookup(done, name'), errors, readable), back, tail, errors)
    ensures var r := ReadMembers(s, done, name, errors, readable);
      match back
      case Lost => !r.ok
      case Kept(x) =>
        && (ReadToken(tail).token.kind == ObjectEnd ==>
            r == Outcome(true, Object(Insert(done, name', x)), ReadToken(tail).rest, errors))
        && (ReadToken(tail).token.kind == ArraySeparator ==>
            r == ReadMembers(ReadToken(tail).rest, Insert(done, name', x), name', errors, readable))
  {
    hide ReadValue, ReadToken, StringOf, Insert, Lookup;
    assert ReadMembers(s, done, name, errors, readable) == ReadMember(ReadToken(s).rest, done, name', errors, readable);
  }

  // ----- whole values

  /** The tail behind a value: it ends a number and starts with the given token. */
  predicate Closes(tail: Bytes, kind: Kind, rest: Bytes) {
    Delimited(tail) && ReadToken(tail).token.kind == kind && ReadToken(tail).rest == rest
  }

  lemma PunctuationCloses(b: Bytes, c: Byte, rest: Bytes)
    requires Blank(b) && c in {0x7B, 0x7D, 0x5B, 0x5D, 0x2C, 0x3A}
    ensures Closes(b + [c] + rest, Front([c]).0, rest)
  {
    hide ReadToken, Front;
    assert b + [c] + rest == b + ([c] + rest);
    TokenBehindBlanks(b, [c] + rest);
    PunctuationToken(c, rest);
    if b != [] {
      assert IsSpace(b[0]);
    }
  }

  lemma CommaCloses(more: Bytes)
    ensures Closes([0x2C] + more, ArraySeparator, more)
  {
    PunctuationCloses([], 0x2C, more);
    assert [] + [0x2C] + more == [0x2C] + more;
    hide ReadToken;
  }

  /** The text of a value, with anything that ends a number behind it, is read as what
      `ReadBack` says of that value, in every layout. */
  lemma {:induction false} ValueReadsBack(v: JsonValue, document: Bytes, indent: Bytes, rest: Bytes, current: JsonValue,
                                          errors: seq<Error>, realText: Bytes -> Bytes, readable: Bytes -> bool)
    requires RealFree(v) && Blank(indent) && Delimited(rest)
    ensures var w := WriteValue(v, document, indent, realText);
            && document <= w
            && ReadToken(w[|document|..] + rest).token.kind != ArrayEnd
            && IsBack(ReadValue(w[|document|..] + rest, current, errors, readable), ReadBack(v, readable), rest, errors)
    decreases v, 3
  {
    hide ReadValue, ReadToken, SimpleText, WriteIndent, WriteMembers, WriteElements, Joined, IsMultiline, RealFree,
         IsBack, ReadBack;
    if IsSimple(v) {
      SimpleReadsBack(v, rest, current, errors, realText, readable);
      TailOfAppend(document, SimpleText(v, realText));
    } else if v.Object? {
      ObjectReadsBack(v, document, indent, rest, current, errors, realText, readable);
    } else if IsMultiline(v.elems, realText) {
      LongArrayReadsBack(v, document, indent, rest, current, errors, realText, readable);
    } else {
      NotMultiline(v.elems, realText);
      ShortArrayReadsBack(v, document, rest, current, errors, realText, readable);
      TailOfAppend(document, [0x5B, 0x20] + Joined(v.elems, realText) + [0x20, 0x5D]);
      assert document + [0x5B, 0x20] + Joined(v.elems, realText) + [0x20, 0x5D]
          == document + ([0x5B, 0x20] + Joined(v.elems, realText) + [0x20, 0x5D]);
    }
  }

  lemma NotMultiline(elems: seq<JsonValue>, realText: Bytes -> Bytes)
    requires !IsMultiline(elems, realText)
    ensures forall e :: e in elems ==> IsSimple(e)
  {
  }

  lemma TailOfAppend(document: Bytes, text: Bytes)
    ensures document <= document + text && (document + text)[|document|..] == text
  {
  }

  lemma {:induction false} ObjectReadsBack(v: JsonValue, document: Bytes, indent: Bytes, rest: Bytes,
                                           current: JsonValue,
                                           errors: seq<Error>, realText: Bytes -> Bytes, readable: Bytes -> bool)
    requires RealFree(v) && v.Object? && v.members != [] && Blank(indent)
    ensures var w := WriteValue(v, document, indent, realText);
            && document <= w
            && ReadToken(w[|document|..] + rest).token.kind != ArrayEnd
            && IsBack(ReadValue(w[|document|..] + rest, current, errors, readable), ReadBack(v, readable), rest, errors)
    decreases v, 2
  {
    hide ReadValue, ReadToken, ReadMembers, WriteMembers, WriteIndent, IsBack, MembersBack;
    var begun := WriteWithIndent(document, indent, [0x7B]);
    var inner := WriteMembers(v.members, begun, indent + INDENT, realText);
    IndentIsBlank(document, indent);
    IndentIsBlank(inner, indent);
    var b1, b2 := WriteIndent(document, indent)[|document|..], WriteIndent(inner, indent)[|inner|..];
    var tail := b2 + [0x7D] + rest;
    PunctuationCloses(b2, 0x7D, rest);
    MembersReadBack(v, v.members, [], [], begun, indent + INDENT, tail, rest, errors, realText, readable);
    var body := inner[|begun|..] + tail;
    Bracketed(document, indent, 0x7B, inner, 0x7D, rest);
    PunctuationToken(0x7B, body);
    TokenBehindBlanks(b1, [0x7B] + body);
    ObjectStarts(b1 + ([0x7B] + body), current, errors, readable);
  }

  /** The text between the document before and after a bracketed block. */
  lemma Bracketed(document: Bytes, indent: Bytes, left: Byte, inner: Bytes, right: Byte, rest: Bytes)
    requires document <= WriteIndent(document, indent) && inner <= WriteIndent(inner, indent)
    requires WriteWithIndent(document, indent, [left]) <= inner
    ensures var begun := WriteWithIndent(document, indent, [left]);
            var w := WriteWithIndent(inner, indent, [right]);
            && document <= w
            && w[|document|..] + rest
               == WriteIndent(document, indent)[|document|..] + ([left] + (inner[|begun|..] +
                  (WriteIndent(inner, indent)[|inner|..] + [right] + rest)))
  {
    hide WriteIndent;
    var begun := WriteWithIndent(document, indent, [left]);
    var b1, b2 := WriteIndent(document, indent)[|document|..], WriteIndent(inner, indent)[|inner|..];
    var body := inner[|begun|..];
    assert begun == document + b1 + [left];
    assert inner == begun + body;
    assert WriteIndent(inner, indent) == inner + b2;
    Associate(document, b1, [left], body, b2, [right], rest);
  }

  lemma Associate(d: Bytes, a: Bytes, l: Bytes, m: Bytes, b: Bytes, r: Bytes, rest: Bytes)
    ensures var w := d + a + l + m + b + r;
            d <= w && w[|d|..] + rest == a + (l + (m + (b + r + rest)))
  {
    var w := d + a + l + m + b + r;
    assert w == d + (a + l + m + b + r);
    assert w[|d|..] == a + l + m + b + r;
    assert a + l + m + b + r + rest == a + (l + (m + (b + r + rest)));
  }

  /** The members loop: `done` was read already, `ms` is still to be read. */
  lemma {:induction false} MembersReadBack(parent: JsonValue, ms: seq<Member>, done: seq<Member>, name: Bytes,
                                           document: Bytes, indent: Bytes, tail: Bytes, rest: Bytes, errors: seq<Error>,
                                           realText: Bytes -> Bytes, readable: Bytes -> bool)
    requires parent.Object? && (forall m :: m in ms ==> m in parent.members && RealFree(m.value))
    requires ms != [] && Blank(indent) && Closes(tail, ObjectEnd, rest)
    ensures var w := WriteMembers(ms, document, indent, realText);
            && document <= w
            && IsBack(ReadMembers(w[|document|..] + tail, done, name, errors, readable),
              MembersBack(ms, done, readable), rest, errors)
    decreases parent, 1, |ms|
  {
    hide ReadValue, ReadToken, ReadMembers, WriteMember, RealFree, ReadBack, Insert;
    var m := ms[0];
    var first := WriteMember(m, document, indent, realText);
    if |ms| == 1 {
      MemberReadsBack(parent, m, done, name, document, indent, tail, errors, realText, readable);
    } else {
      var next := first + [0x2C];
      var back := ReadBack(m.value, readable);
      var done' := if back.Kept? then Insert(done, NameBack(m.name), back.value) else done;
      MembersReadBack(parent, ms[1..], done', NameBack(m.name), next, indent, tail, rest, errors, realText, readable);
      var w := WriteMembers(ms[1..], next, indent, realText);
      var more := w[|next|..] + tail;
      CommaCloses(more);
      MemberReadsBack(parent, m, done, name, document, indent, [0x2C] + more, errors, realText, readable);
      Chained(document, first, 0x2C, w, tail);
    }
  }

  lemma Chained(document: Bytes, first: Bytes, c: Byte, w: Bytes, tail: Bytes)
    requires document <= first && first + [c] <= w
    ensures document <= w
    ensures w[|document|..] + tail == first[|document|..] + ([c] + (w[|first| + 1..] + tail))
  {
    var a, b := first[|document|..], w[|first| + 1..];
    assert w == first + [c] + b;
    assert w[|document|..] == a + [c] + b;
  }

  /** One member in front of the separator or the closing brace. */
  lemma {:induction false} MemberReadsBack(parent: JsonValue, m: Member, done: seq<Member>, name: Bytes,
                                           document: Bytes, indent: Bytes, tail: Bytes, errors: seq<Error>,
                                           realText: Bytes -> Bytes, readable: Bytes -> bool)
    requires parent.Object? && m in parent.members && RealFree(m.value)
    requires Blank(indent) && Delimited(tail)
    ensures var w := WriteMember(m, document, indent, realText);
            && document <= w
            && var r := ReadMembers(w[|document|..] + tail, done, name, errors, readable);
               match ReadBack(m.value, readable)
               case Lost => !r.ok
               case Kept(x) =>
                 && (ReadToken(tail).token.kind == ObjectEnd ==>
                     r == Outcome(true, Object(Insert(done, NameBack(m.name), x)), ReadToken(tail).rest, errors))
                 && (ReadToken(tail).token.kind == ArraySeparator ==>
                     r == ReadMembers(ReadToken(tail).rest, Insert(done, NameBack(m.name), x), NameBack(m.name), errors,
                       readable))
    decreases parent, 0
  {
    hide ReadValue, ReadToken, ReadMembers, JsonStrings.Quoted, StringOf, WriteValue, WriteIndent, RealFree, ReadBack,
         IsBack;
    hide JsonStrings.Repaired, CString, Insert, Lookup;
    var quoted := JsonStrings.Quoted(CString(m.name));
    IndentIsBlank(document, indent);
    var b := WriteIndent(document, indent)[|document|..];
    var named := WriteWithIndent(document, indent, quoted) + [0x20, 0x3A, 0x20];
    var i :| 0 <= i < |parent.members| && parent.members[i] == m;
    var name' := NameBack(m.name);
    ValueReadsBack(m.value, named, indent, tail, Lookup(done, name'), errors, realText, readable);
    var w := WriteValue(m.value, named, indent, realText);
    var text := w[|named|..] + tail;
    NamedText(document, b, quoted, w, tail);
    var colon := [0x20, 0x3A, 0x20] + text;
    StringTextToken(CString(m.name), colon);
    TokenBehindBlanks(b, quoted + colon);
    ColonToken(text);
    StringBack(CString(m.name));
    ValueBehindBlanks([0x20], text, Lookup(done, name'), errors, readable);
    MemberStep(b + (quoted + colon), done, name, name', ReadBack(m.value, readable), [0x20] + text, tail, errors,
      readable);
  }

  lemma ColonToken(text: Bytes)
    ensures ReadToken([0x20, 0x3A, 0x20] + text) == Lexed(Token(MemberSeparator, [0x3A]), [0x20] + text)
  {
    hide ReadToken;
    assert [0x20, 0x3A, 0x20] + text == [0x20] + ([0x3A] + ([0x20] + text));
    TokenBehindBlanks([0x20], [0x3A] + ([0x20] + text));
    PunctuationToken(0x3A, [0x20] + text);
  }

  lemma NamedText(document: Bytes, b: Bytes, quoted: Bytes, w: Bytes, tail: Bytes)
    requires document + b + quoted + [0x20, 0x3A, 0x20] <= w
    ensures document <= w
    ensures w[|document|..] + tail
         == b + (quoted + ([0x20, 0x3A, 0x20] + (w[|document| + |b| + |quoted| + 3..] + tail)))
  {
    var named := document + b + quoted + [0x20, 0x3A, 0x20];
    var v := w[|named|..];
    assert w == named + v;
    assert w[|document|..] == b + quoted + [0x20, 0x3A, 0x20] + v;
  }

  lemma {:induction false} LongArrayReadsBack(v: JsonValue, document: Bytes, indent: Bytes, rest: Bytes,
                                              current: JsonValue,
                                              errors: seq<Error>, realText: Bytes -> Bytes, readable: Bytes -> bool)
    requires RealFree(v) && v.Array? && v.elems != [] && IsMultiline(v.elems, realText) && Blank(indent)
    ensures var w := WriteValue(v, document, indent, realText);
            && document <= w
            && ReadToken(w[|document|..] + rest).token.kind != ArrayEnd
            && IsBack(ReadValue(w[|document|..] + rest, current, errors, readable), ReadBack(v, readable), rest, errors)
    decreases v, 2
  {
    hide ReadValue, ReadToken, ReadElements, WriteElements, WriteIndent, IsMultiline, IsBack, ElementsBack;
    var begun := WriteWithIndent(document, indent, [0x5B]);
    var inner := WriteElements(v.elems, begun, indent + INDENT, realText);
    IndentIsBlank(document, indent);
    IndentIsBlank(inner, indent);
    var b1, b2 := WriteIndent(document, indent)[|document|..], WriteIndent(inner, indent)[|inner|..];
    var tail := b2 + [0x5D] + rest;
    PunctuationCloses(b2, 0x5D, rest);
    ElementsReadBack(v, v.elems, [], begun, indent + INDENT, tail, rest, errors, realText, readable);
    var body := inner[|begun|..] + tail;
    Bracketed(document, indent, 0x5B, inner, 0x5D, rest);
    PunctuationToken(0x5B, body);
    TokenBehindBlanks(b1, [0x5B] + body);
    ArrayStarts(b1 + ([0x5B] + body), current, errors, readable);
  }

  lemma {:induction false} ElementsReadBack(parent: JsonValue, es: seq<JsonValue>, done: seq<JsonValue>,
                                            document: Bytes,
                                            indent: Bytes, tail: Bytes, rest: Bytes, errors: seq<Error>,
                                            realText: Bytes -> Bytes, readable: Bytes -> bool)
    requires parent.Array? && (forall e :: e in es ==> e in parent.elems && RealFree(e))
    requires es != [] && Blank(indent) && Closes(tail, ArrayEnd, rest)
    ensures var w := WriteElements(es, document, indent, realText);
            && document <= w
            && ReadToken(w[|document|..] + tail).token.kind != ArrayEnd
            && IsBack(ReadElements(w[|document|..] + tail, done, errors, readable), ElementsBack(es, done, readable),
              rest, errors)
    decreases parent, 1, |es|
  {
    hide ReadValue, ReadToken, ReadElements, WriteValue, WriteIndent, RealFree, ReadBack;
    var e := es[0];
    var first := WriteValue(e, WriteIndent(document, indent), indent, realText);
    var back := ReadBack(e, readable);
    if |es| == 1 {
      ElementReadsBack(parent, e, document, indent, tail, errors, realText, readable);
      ElementStep(first[|document|..] + tail, done, back, tail, errors, readable);
    } else {
      var next := first + [0x2C];
      var done' := if back.Kept? then done + [back.value] else done;
      ElementsReadBack(parent, es[1..], done', next, indent, tail, rest, errors, realText, readable);
      var w := WriteElements(es[1..], next, indent, realText);
      var more := w[|next|..] + tail;
      CommaCloses(more);
      ElementReadsBack(parent, e, document, indent, [0x2C] + more, errors, realText, readable);
      ElementStep(first[|document|..] + ([0x2C] + more), done, back, [0x2C] + more, errors, readable);
      Chained(document, first, 0x2C, w, tail);
    }
  }

  lemma {:induction false} ElementReadsBack(parent: JsonValue, e: JsonValue, document: Bytes, indent: Bytes,
                                            tail: Bytes,
                                            errors: seq<Error>, realText: Bytes -> Bytes, readable: Bytes -> bool)
    requires parent.Array? && e in parent.elems && RealFree(e) && Blank(indent) && Delimited(tail)
    ensures var first := WriteValue(e, WriteIndent(document, indent), indent, realText);
            && document <= first
            && ReadToken(first[|document|..] + tail).token.kind != ArrayEnd
            && IsBack(ReadValue(first[|document|..] + tail, Null, errors, readable), ReadBack(e, readable), tail,
              errors)
    decreases parent, 0
  {
    hide ReadValue, WriteValue, WriteIndent, RealFree, ReadToken, IsBack, ReadBack;
    var start := WriteIndent(document, indent);
    IndentIsBlank(document, indent);
    var i :| 0 <= i < |parent.elems| && parent.elems[i] == e;
    ValueReadsBack(e, start, indent, tail, Null, errors, realText, readable);
    var first := WriteValue(e, start, indent, realText);
    var b := start[|document|..];
    ValueBehindBlanks(b, first[|start|..] + tail, Null, errors, readable);
    TokenBehindBlanks(b, first[|start|..] + tail);
    assert first == document + b + first[|start|..];
    assert first[|document|..] + tail == b + (first[|start|..] + tail);
  }

  lemma {:induction false} ShortArrayReadsBack(v: JsonValue, document: Bytes, rest: Bytes, current: JsonValue,
                                               errors: seq<Error>, realText: Bytes -> Bytes, readable: Bytes -> bool)
    requires RealFree(v) && v.Array? && v.elems != [] && (forall e :: e in v.elems ==> IsSimple(e))
    ensures var s := [0x5B, 0x20] + Joined(v.elems, realText) + [0x20, 0x5D] + rest;
            && ReadToken(s).token.kind != ArrayEnd
            && IsBack(ReadValue(s, current, errors, readable), ReadBack(v, readable), rest, errors)
    decreases v, 2
  {
    hide ReadValue, ReadToken, ReadElements, Joined, IsBack, ElementsBack;
    var tail := [0x20, 0x5D] + rest;
    assert tail == [0x20] + [0x5D] + rest;
    PunctuationCloses([0x20], 0x5D, rest);
    JoinedReadsBack(v.elems, [], tail, rest, errors, realText, readable);
    var body := Joined(v.elems, realText) + tail;
    assert [0x5B, 0x20] + Joined(v.elems, realText) + [0x20, 0x5D] + rest == [0x5B] + ([0x20] + body);
    PunctuationToken(0x5B, [0x20] + body);
    ArrayStarts([0x5B] + ([0x20] + body), current, errors, readable);
  }

  /** The single-line layout, in front of which a blank may stand. */
  lemma {:induction false} JoinedReadsBack(es: seq<JsonValue>, done: seq<JsonValue>, tail: Bytes, rest: Bytes,
                                           errors: seq<Error>, realText: Bytes -> Bytes, readable: Bytes -> bool)
    requires es != [] && (forall e :: e in es ==> IsSimple(e) && RealFree(e)) && Closes(tail, ArrayEnd, rest)
    ensures var s := [0x20] + (Joined(es, realText) + tail);
            && ReadToken(s).token.kind != ArrayEnd
            && IsBack(ReadElements(s, done, errors, readable), ElementsBack(es, done, readable), rest, errors)
    decreases |es|
  {
    hide ReadValue, ReadToken, ReadElements, SimpleText, RealFree, ReadBack;
    var e := es[0];
    var back := ReadBack(e, readable);
    if |es| == 1 {
      JoinedElement(e, done, tail, errors, realText, readable);
    } else {
      var more := [0x20] + (Joined(es[1..], realText) + tail);
      var done' := if back.Kept? then done + [back.value] else done;
      JoinedReadsBack(es[1..], done', tail, rest, errors, realText, readable);
      CommaCloses(more);
      JoinedElement(e, done, [0x2C] + more, errors, realText, readable);
      assert Joined(es, realText) + tail == SimpleText(e, realText) + ([0x2C] + more);
    }
  }

  lemma JoinedElement(e: JsonValue, done: seq<JsonValue>, tail: Bytes, errors: seq<Error>,
                      realText: Bytes -> Bytes, readable: Bytes -> bool)
    requires IsSimple(e) && RealFree(e) && Delimited(tail)
    ensures var s := [0x20] + (SimpleText(e, realText) + tail);
      && ReadToken(s).token.kind != ArrayEnd
      && var r := ReadElements(s, done, errors, readable);
        match ReadBack(e, readable)
        case Lost => !r.ok
        case Kept(item) =>
          && (ReadToken(tail).token.kind == ArrayEnd ==>
              r == Outcome(true, Array(done + [item]), ReadToken(tail).rest, errors))
          && (ReadToken(tail).token.kind == ArraySeparator ==>
              r == ReadElements(ReadToken(tail).rest, done + [item], errors, readable))
  {
    hide ReadValue, ReadToken, ReadElements, SimpleText, RealFree, ReadBack, IsBack;
    var text := SimpleText(e, realText) + tail;
    SimpleReadsBack(e, tail, Null, errors, realText, readable);
    ValueBehindBlanks([0x20], text, Null, errors, readable);
    TokenBehindBlanks([0x20], text);
    ElementStep([0x20] + text, done, ReadBack(e, readable), tail, errors, readable);
  }

  /** What parsing a written document gives, for every real-free tree, from whatever the root
      held before, and whatever the C library does with floating-point text. */
  lemma WrittenThenParsed(v: JsonValue, root: JsonValue, realText: Bytes -> Bytes, readable: Bytes -> bool)
    requires RealFree(v)
    ensures match ReadBack(v, readable)
            case Kept(x) => Parse(Write(v, realText), root, readable) == (true, x)
            case Lost => !Parse(Write(v, realText), root, readable).0
  {
    hide ReadValue, WriteValue, RealFree, ReadToken, ReadBack;
    ValueReadsBack(v, [], [], [0x0A], root, [], realText, readable);
    var w := WriteValue(v, [], [], realText);
    assert w[0..] + [0x0A] == Write(v, realText);
    assert SkipSpaces([0x0A]) == [];
  }

  // ----- exactly which trees come back unchanged

  lemma IntKept(n: int, readable: Bytes -> bool)
    requires JsonNumbers.MIN64 <= n <= JsonNumbers.MAX64
    ensures IntBack(n, readable) == Kept(Int(n)) <==> n >= -9223372036854775799
  {
    hide JsonNumbers.IntText, JsonNumbers.DecodeNumber;
    JsonNumbers.IntRoundTrip(n);
  }

  lemma StringKept(s: Bytes)
    ensures JsonStrings.Repaired(s) == s <==> Utf8.WellFormed(s)
  {
    hide JsonStrings.Repaired;
    JsonStrings.RepairedIsWellFormed(s);
    if Utf8.WellFormed(s) {
      JsonStrings.WellFormedIsKept(s);
    }
  }

  lemma {:induction false} CStringIsNulFree(name: Bytes)
    ensures 0 !in CString(name)
    ensures 0 !in name ==> CString(name) == name
  {
    if name != [] && name[0] != 0 {
      CStringIsNulFree(name[1..]);
      assert name == [name[0]] + name[1..];
    }
  }

  lemma {:induction false} RepairedIsNulFree(s: Bytes)
    requires 0 !in s
    ensures 0 !in JsonStrings.Repaired(s)
    decreases |s|
  {
    if s != [] {
      hide JsonStrings.EscapeFront, JsonStrings.FrontValue, Utf8.Encode;
      RepairedIsNulFree(s[JsonStrings.EscapeFront(s).1..]);
      FrontNotNul(s);
      EncodeNotNul(JsonStrings.FrontValue(s));
    }
  }

  lemma FrontNotNul(s: Bytes)
    requires s != [] && s[0] != 0
    ensures JsonStrings.FrontValue(s) > 0
  {
  }

  lemma EncodeNotNul(cp: nat)
    requires cp > 0
    ensures 0 !in Utf8.Encode(cp)
  {
  }

  /** Every name the reader sees is good, and only good names stay as they are. */
  lemma NameKept(name: Bytes)
    ensures GoodName(NameBack(name))
    ensures NameBack(name) == name <==> GoodName(name)
  {
    hide JsonStrings.Repaired, CString, Utf8.WellFormed;
    CStringIsNulFree(name);
    RepairedIsNulFree(CString(name));
    JsonStrings.RepairedIsWellFormed(CString(name));
    StringKept(CString(name));
  }

  lemma {:induction false} ElementsKept(parent: JsonValue, es: seq<JsonValue>, done: seq<JsonValue>,
                                        readable: Bytes -> bool)
    requires parent.Array? && forall e :: e in es ==> e in parent.elems && RealFree(e)
    ensures ElementsBack(es, done, readable) == Kept(Array(done + es)) <==> forall e :: e in es ==> Printable(e)
    decreases parent, 1, |es|
  {
    hide RealFree, Printable, ReadBack;
    if es == [] {
      assert done + es == done;
    } else {
      assert es[0] in es;
      var i :| 0 <= i < |parent.elems| && parent.elems[i] == es[0];
      TreeKept(es[0], readable);
      var back := ReadBack(es[0], readable);
      assert es == [es[0]] + es[1..];
      if back.Kept? {
        ElementsPrefix(es[1..], done + [back.value], readable);
        ElementsKept(parent, es[1..], done + [back.value], readable);
        if back.value == es[0] {
          assert done + es == done + [es[0]] + es[1..];
        } else {
          assert (done + es)[|done|] != (done + [back.value])[|done|];
        }
      }
    }
  }

  lemma {:induction false} ElementsPrefix(es: seq<JsonValue>, done: seq<JsonValue>, readable: Bytes -> bool)
    requires forall e :: e in es ==> RealFree(e)
    ensures match ElementsBack(es, done, readable)
            case Lost => true
            case Kept(x) => x.Array? && done <= x.elems
    decreases |es|
  {
    hide RealFree, ReadBack;
    if es != [] {
      var back := ReadBack(es[0], readable);
      if back.Kept? {
        ElementsPrefix(es[1..], done + [back.value], readable);
      }
    }
  }

  /** With good names only, members are appended one by one. */
  lemma {:induction false} MembersKept(parent: JsonValue, ms: seq<Member>, done: seq<Member>, readable: Bytes -> bool)
    requires parent.Object? && Sorted(done + ms)
    requires forall m :: m in ms ==> m in parent.members && RealFree(m.value) && GoodName(m.name)
    ensures MembersBack(ms, done, readable) == Kept(Object(done + ms)) <==> forall m :: m in ms ==> Printable(m.value)
    decreases parent, 1, |ms|
  {
    hide RealFree, Printable, ReadBack, Insert, NameBack;
    if ms == [] {
      assert done + ms == done;
    } else {
      var m := ms[0];
      var i :| 0 <= i < |parent.members| && parent.members[i] == m;
      TreeKept(m.value, readable);
      NameKept(m.name);
      SortedSplit(done, ms);
      var back := ReadBack(m.value, readable);
      assert ms == [m] + ms[1..];
      if back.Kept? {
        InsertLast(done, m.name, back.value);
        var done' := done + [Member(m.name, back.value)];
        SameNamesSorted(done + [m] + ms[1..], done' + ms[1..]);
        MembersPrefix(ms[1..], done', readable);
        MembersKept(parent, ms[1..], done', readable);
        if back.value == m.value {
          assert done + ms == done' + ms[1..];
        } else {
          assert (done + ms)[|done|] != done'[|done|];
        }
      }
    }
  }

  lemma SortedSplit(done: seq<Member>, ms: seq<Member>)
    requires ms != [] && Sorted(done + ms)
    ensures forall i :: 0 <= i < |done| ==> NameLess(done[i].name, ms[0].name)
    ensures Sorted(done + [ms[0]] + ms[1..])
  {
    assert (done + ms)[|done|] == ms[0];
    forall i | 0 <= i < |done| ensures NameLess(done[i].name, ms[0].name) {
      assert (done + ms)[i] == done[i];
    }
    assert done + [ms[0]] + ms[1..] == done + ms;
  }

  lemma SameNamesSorted(a: seq<Member>, b: seq<Member>)
    requires Sorted(a) && |a| == |b| && forall i :: 0 <= i < |a| ==> a[i].name == b[i].name
    ensures Sorted(b)
  {
  }

  lemma {:induction false} MembersPrefix(ms: seq<Member>, done: seq<Member>, readable: Bytes -> bool)
    requires Sorted(done + ms) && forall m :: m in ms ==> RealFree(m.value) && GoodName(m.name)
    ensures match MembersBack(ms, done, readable)
            case Lost => true
            case Kept(x) => x.Object? && done <= x.members
    decreases |ms|
  {
    hide RealFree, ReadBack, Insert, NameBack;
    if ms != [] {
      var m, back := ms[0], ReadBack(ms[0].value, readable);
      NameKept(m.name);
      SortedSplit(done, ms);
      if back.Kept? {
        InsertLast(done, m.name, back.value);
        var done' := done + [Member(m.name, back.value)];
        SameNamesSorted(done + [m] + ms[1..], done' + ms[1..]);
        MembersPrefix(ms[1..], done', readable);
      }
    }
  }

  /** Whatever comes back has good names only. */
  lemma {:induction false} NamesAreGood(ms: seq<Member>, done: seq<Member>, readable: Bytes -> bool)
    requires (forall m :: m in ms ==> RealFree(m.value)) && (forall m :: m in done ==> GoodName(m.name))
    ensures match MembersBack(ms, done, readable)
            case Lost => true
            case Kept(x) => x.Object? && forall m :: m in x.members ==> GoodName(m.name)
    decreases |ms|
  {
    hide RealFree, ReadBack, Insert, NameBack, GoodName;
    if ms != [] {
      var m, back := ms[0], ReadBack(ms[0].value, readable);
      if back.Kept? {
        NameKept(m.name);
        InsertedFrom(done, NameBack(m.name), back.value);
        NamesAreGood(ms[1..], Insert(done, NameBack(m.name), back.value), readable);
      }
    }
  }

  lemma {:induction false} InsertedFrom(members: seq<Member>, name: Bytes, value: JsonValue)
    ensures forall m :: m in Insert(members, name, value) ==> m == Member(name, value) || m in members
  {
    if members != [] && members[0].name != name && !NameLess(name, members[0].name) {
      InsertedFrom(members[1..], name, value);
    }
  }

  /** A tree is read back as itself exactly when it is printable. */
  lemma {:induction false} TreeKept(v: JsonValue, readable: Bytes -> bool)
    requires RealFree(v)
    ensures ReadBack(v, readable) == Kept(v) <==> Printable(v)
    decreases v, 2
  {
    match v {
      case Null =>
      case Bool(_) =>
      case Int(n) =>
        hide IntBack;
        IntKept(n, readable);
      case Str(s) => StringKept(s);
      case Array(elems) =>
        hide ElementsBack;
        ElementsKept(v, elems, [], readable);
        assert [] + elems == elems;
      case Object(members) =>
        hide MembersBack, GoodName;
        assert [] + members == members;
        NamesAreGood(members, [], readable);
        if forall m :: m in members ==> GoodName(m.name) {
          MembersKept(v, members, [], readable);
        }
    }
  }

  /** Parsing a written real-free document gives the tree back exactly when the tree is
      printable: its text well-formed, its names without NUL bytes and its integers from
      -9223372036854775799 up. */
  lemma RoundTrip(v: JsonValue, root: JsonValue, realText: Bytes -> Bytes, readable: Bytes -> bool)
    requires RealFree(v)
    ensures Parse(Write(v, realText), root, readable) == (true, v) <==> Printable(v)
  {
    hide Parse, Write, Printable, RealFree;
    WrittenThenParsed(v, root, realText, readable);
    TreeKept(v, readable);
  }
}
