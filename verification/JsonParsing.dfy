/** What `JsonReader` of src/common/json.cpp computes: tokens, values and error recovery as
    functions of the unread text. */
module JsonParsing {
  import opened Bytes
  import opened JsonValues
  import JsonNumbers
  import JsonStrings

  datatype Kind =
    | EndOfStream | ObjectBegin | ObjectEnd | ArrayBegin | ArrayEnd | StringToken | NumberToken
    | TrueToken | FalseToken | NullToken | ArraySeparator | MemberSeparator | ErrorToken

  datatype Token = Token(kind: Kind, text: Bytes)

  /** A token and the text behind it. */
  datatype Lexed = Lexed(token: Token, rest: Bytes)

  datatype Error = Error(message: string, token: Token)

  datatype Outcome = Outcome(ok: bool, value: JsonValue, rest: Bytes, errors: seq<Error>)

  const TRUE_TEXT: Bytes := [0x74, 0x72, 0x75, 0x65]
  const FALSE_TEXT: Bytes := [0x66, 0x61, 0x6C, 0x73, 0x65]
  const NULL_TEXT: Bytes := [0x6E, 0x75, 0x6C, 0x6C]

  const MISSING_NAME := "Missing '}' or object member name"
  const MISSING_COLON := "Missing ':' after object member name"
  const MISSING_MEMBER_SEPARATOR := "Missing ',' or '}' in object declaration"
  const MISSING_SEPARATOR := "Missing ',' or ']' in array declaration"
  const NOT_A_NUMBER := "is not a number."

  predicate IsSpace(c: Byte) {
    c == 0x20 || c == 0x09 || c == 0x0D || c == 0x0A
  }

  function SkipSpaces(s: Bytes): (r: Bytes)
    ensures |r| <= |s|
    ensures r != [] ==> !IsSpace(r[0])
  {
    if s != [] && IsSpace(s[0]) then SkipSpaces(s[1..]) else s
  }

  function DigitRun(s: Bytes): (n: nat)
    ensures n <= |s|
  {
    if s != [] && JsonNumbers.IsDigit(s[0]) then 1 + DigitRun(s[1..]) else 0
  }

  /** Where a fraction that may start at `a` ends. */
  function FractionEnd(s: Bytes, a: nat): (b: nat)
    requires a <= |s|
    ensures a <= b <= |s|
  {
    if a < |s| && s[a] == 0x2E then a + 1 + DigitRun(s[a + 1..]) else a
  }

  /** Where an exponent that may start at `b` ends. */
  function ExponentEnd(s: Bytes, b: nat): (e: nat)
    requires b <= |s|
    ensures b <= e <= |s|
  {
    if b < |s| && (s[b] == 0x65 || s[b] == 0x45) then
      var d := if b + 1 < |s| && (s[b + 1] == 0x2B || s[b + 1] == 0x2D) then b + 2 else b + 1;
      d + DigitRun(s[d..])
    else b
  }

  /** `ReadNumber`: how far a number reaches behind its first character. */
  function NumberTail(s: Bytes): (n: nat)
    ensures n <= |s|
  {
    ExponentEnd(s, FractionEnd(s, DigitRun(s)))
  }

  /** `Match`: a keyword takes all its characters or only the first one. */
  function MatchKeyword(s: Bytes, keyword: Bytes, kind: Kind): (Kind, nat)
    requires s != []
  {
    if keyword <= s then (kind, |keyword|) else (ErrorToken, 1)
  }

  /** The token at the front of non-blank text: its kind and length. */
  function Front(s: Bytes): (r: (Kind, nat))
    requires s != []
    ensures 1 <= r.1 <= |s| && r.0 != EndOfStream
  {
    var c := s[0];
    if c == 0x7B then (ObjectBegin, 1)
    else if c == 0x7D then (ObjectEnd, 1)
    else if c == 0x5B then (ArrayBegin, 1)
    else if c == 0x5D then (ArrayEnd, 1)
    else if c == JsonStrings.QUOTE then
      var (found, n) := JsonStrings.ScanString(s[1..]);
      (if found then StringToken else ErrorToken, 1 + n)
    else if JsonNumbers.IsDigit(c) || c == JsonNumbers.MINUS then (NumberToken, 1 + NumberTail(s[1..]))
    else if c == 0x74 then MatchKeyword(s, TRUE_TEXT, TrueToken)
    else if c == 0x6E then MatchKeyword(s, NULL_TEXT, NullToken)
    else if c == 0x66 then MatchKeyword(s, FALSE_TEXT, FalseToken)
    else if c == 0x2C then (ArraySeparator, 1)
    else if c == 0x3A then (MemberSeparator, 1)
    else (ErrorToken, 1)
  }

  /** `ReadToken`: an error token is the only unsuccessful one. */
  function ReadToken(s: Bytes): (l: Lexed)
    ensures l.token.kind != EndOfStream ==> |l.rest| < |s|
    ensures l.token.kind == EndOfStream ==> l.rest == []
    ensures |l.rest| <= |s|
  {
    var t := SkipSpaces(s);
    if t == [] then Lexed(Token(EndOfStream, []), [])
    else
      var (kind, n) := Front(t);
      Lexed(Token(kind, t[..n]), t[n..])
  }

  /** `RecoverFromError`: what is left once the token looked for, or the end, was read. */
  function Recover(s: Bytes, until: Kind): (rest: Bytes)
    ensures |rest| <= |s|
    decreases |s|
  {
    var l := ReadToken(s);
    if l.token.kind == until || l.token.kind == EndOfStream then l.rest else Recover(l.rest, until)
  }

  /** `DecodeString` on a string token. */
  function StringOf(text: Bytes): JsonStrings.Decoded {
    if |text| < 2 then JsonStrings.Text([]) else JsonStrings.DecodeText(text[1..|text| - 1])
  }

  function Failed(message: string, token: Token, value: JsonValue, rest: Bytes, errors: seq<Error>,
                  until: Kind): (r: Outcome)
    ensures |r.rest| <= |rest|
  {
    Outcome(false, value, Recover(rest, until), errors + [Error(message, token)])
  }

  /** `ReadValue`, starting from the value the node holds. `readable` says which floating-point
      tokens the C library accepts. */
  function ReadValue(s: Bytes, current: JsonValue, errors: seq<Error>, readable: Bytes -> bool): (r: Outcome)
    ensures |r.rest| <= |s|
    decreases |s|, 2
  {
    var Lexed(token, rest) := ReadToken(s);
    match token.kind
    case ObjectBegin => ReadMembers(rest, [], [], errors, readable)
    case ArrayBegin => ReadArray(rest, errors, readable)
    case NumberToken => NumberValue(token, rest, current, errors, readable)
    case StringToken => StringValue(token, rest, current, errors)
    case TrueToken => Outcome(true, Bool(true), rest, errors)
    case FalseToken => Outcome(true, Bool(false), rest, errors)
    case NullToken => Outcome(true, Null, rest, errors)
    case _ => Outcome(false, current, rest, errors)
  }

  function NumberValue(token: Token, rest: Bytes, current: JsonValue, errors: seq<Error>,
                       readable: Bytes -> bool): (r: Outcome)
    ensures r.rest == rest
  {
    if token.text == [] then Outcome(false, current, rest, errors)
    else
      match JsonNumbers.DecodeNumber(token.text)
      case Integer(n) => Outcome(true, Int(n), rest, errors)
      case Floating =>
        if readable(token.text) then Outcome(true, Real(token.text), rest, errors)
        else Outcome(false, current, rest, errors + [Error(NOT_A_NUMBER, token)])
  }

  function StringValue(token: Token, rest: Bytes, current: JsonValue, errors: seq<Error>): (r: Outcome)
    ensures r.rest == rest
  {
    match StringOf(token.text)
    case Text(text) => Outcome(true, Str(text), rest, errors)
    case Bad(message) => Outcome(false, current, rest, errors + [Error(message, token)])
  }

  function ReadArray(s: Bytes, errors: seq<Error>, readable: Bytes -> bool): (r: Outcome)
    ensures |r.rest| <= |s|
    decreases |s|, 4
  {
    var t := SkipSpaces(s);
    if t != [] && t[0] == 0x5D then Outcome(true, Array([]), t[1..], errors)
    else ReadElements(t, [], errors, readable)
  }

  /** The loop of `ReadArray`. */
  function ReadElements(s: Bytes, elems: seq<JsonValue>, errors: seq<Error>, readable: Bytes -> bool): (r: Outcome)
    ensures |r.rest| <= |s|
    decreases |s|, 3
  {
    var item := ReadValue(s, Null, errors, readable);
    var elems' := elems + [item.value];
    if !item.ok then Outcome(false, Array(elems'), Recover(item.rest, ArrayEnd), item.errors)
    else
      var Lexed(token, rest) := ReadToken(item.rest);
      if token.kind != ArraySeparator && token.kind != ArrayEnd then
        Failed(MISSING_SEPARATOR, token, Array(elems'), rest, item.errors, ArrayEnd)
      else if token.kind == ArrayEnd then Outcome(true, Array(elems'), rest, item.errors)
      else ReadElements(rest, elems', item.errors, readable)
  }

  /** The loop of `ReadObject`; `name` is the name read last. */
  function ReadMembers(s: Bytes, members: seq<Member>, name: Bytes, errors: seq<Error>,
                       readable: Bytes -> bool): (r: Outcome)
    ensures |r.rest| <= |s|
    decreases |s|, 3
  {
    var Lexed(token, rest) := ReadToken(s);
    if token.kind == ObjectEnd && name == [] then Outcome(true, Object(members), rest, errors)
    else if token.kind != StringToken then Failed(MISSING_NAME, token, Object(members), rest, errors, ObjectEnd)
    else
      match StringOf(token.text)
      case Bad(message) => Failed(message, token, Object(members), rest, errors, ObjectEnd)
      case Text(name') => ReadMember(rest, members, name', errors, readable)
  }

  /** The part of the loop behind the name. */
  function ReadMember(s: Bytes, members: seq<Member>, name: Bytes, errors: seq<Error>,
                      readable: Bytes -> bool): (r: Outcome)
    ensures |r.rest| <= |s|
    decreases |s|, 3
  {
    var Lexed(colon, rest) := ReadToken(s);
    if colon.kind != MemberSeparator then Failed(MISSING_COLON, colon, Object(members), rest, errors, ObjectEnd)
    else
      var item := ReadValue(rest, Lookup(members, name), errors, readable);
      var members' := Insert(members, name, item.value);
      if !item.ok then Outcome(false, Object(members'), Recover(item.rest, ObjectEnd), item.errors)
      else
        var Lexed(comma, rest') := ReadToken(item.rest);
        if comma.kind != ObjectEnd && comma.kind != ArraySeparator then
          Failed(MISSING_MEMBER_SEPARATOR, comma, Object(members'), rest', item.errors, ObjectEnd)
        else if comma.kind == ObjectEnd then Outcome(true, Object(members'), rest', item.errors)
        else ReadMembers(rest', members', name, item.errors, readable)
  }

  /** `Parse`: one value and nothing but blanks behind it. */
  function Parse(document: Bytes, root: JsonValue, readable: Bytes -> bool): (bool, JsonValue) {
    var r := ReadValue(document, root, [], readable);
    (r.ok && SkipSpaces(r.rest) == [], r.value)
  }
}
