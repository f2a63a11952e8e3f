/** What `JsonStyledWriter` of src/common/json.cpp computes: the document as a function of the
    document so far, the indentation and the value. */
module JsonPrinting {
  import opened Bytes
  import opened JsonValues
  import JsonNumbers
  import JsonParsing
  import JsonStrings

  const RIGHT_MARGIN: nat := 74
  const INDENT: Bytes := [0x20, 0x20, 0x20]
  const TWO32: nat := 0x1_0000_0000

  /** Values written by one `PushValue`. */
  predicate IsSimple(v: JsonValue) {
    (v.Array? ==> v.elems == []) && (v.Object? ==> v.members == [])
  }

  /** The text of a simple value; `realText` is the C library's formatting. */
  function SimpleText(v: JsonValue, realText: Bytes -> Bytes): Bytes
    requires IsSimple(v)
  {
    match v
    case Null => JsonParsing.NULL_TEXT
    case Bool(b) => if b then JsonParsing.TRUE_TEXT else JsonParsing.FALSE_TEXT
    case Int(n) => JsonNumbers.IntText(n)
    case Real(token) => realText(token)
    case Str(s) => JsonStrings.Quoted(s)
    case Array(_) => [0x5B, 0x5D]
    case Object(_) => [0x7B, 0x7D]
  }

  /** `WriteIndent`: a new line, unless one was just begun or the last character is a space. */
  function WriteIndent(document: Bytes, indent: Bytes): Bytes {
    if document == [] then indent
    else
      var last := document[|document| - 1];
      if last == 0x20 then document
      else if last != 0x0A then document + [0x0A] + indent
      else document + indent
  }

  function WriteWithIndent(document: Bytes, indent: Bytes, text: Bytes): Bytes {
    WriteIndent(document, indent) + text
  }

  /** The bytes before the first NUL, as `c_str()` shows them. */
  function CString(s: Bytes): Bytes {
    if s == [] || s[0] == 0 then [] else [s[0]] + CString(s[1..])
  }

  function TextLengths(elems: seq<JsonValue>, realText: Bytes -> Bytes): nat
    requires forall v :: v in elems ==> IsSimple(v)
  {
    if elems == [] then 0 else |SimpleText(elems[0], realText)| + TextLengths(elems[1..], realText)
  }

  /** `IsMultilineArray`, with its 32-bit arithmetic. */
  predicate IsMultiline(elems: seq<JsonValue>, realText: Bytes -> Bytes) {
    || elems == []
    || |elems| * 3 % TWO32 >= RIGHT_MARGIN
    || (exists v :: v in elems && !IsSimple(v))
    || (4 + (|elems| - 1) * 2 + TextLengths(elems, realText)) % TWO32 >= RIGHT_MARGIN
  }

  function Joined(elems: seq<JsonValue>, realText: Bytes -> Bytes): Bytes
    requires forall v :: v in elems ==> IsSimple(v)
  {
    if elems == [] then []
    else if |elems| == 1 then SimpleText(elems[0], realText)
    else SimpleText(elems[0], realText) + [0x2C, 0x20] + Joined(elems[1..], realText)
  }

  /** `WriteValue` outside the collection of child texts. */
  function WriteValue(v: JsonValue, document: Bytes, indent: Bytes, realText: Bytes -> Bytes): Bytes
    decreases v, 1
  {
    if IsSimple(v) then document + SimpleText(v, realText)
    else if v.Object? then
      var begun := WriteWithIndent(document, indent, [0x7B]);
      WriteWithIndent(WriteMembers(v.members, begun, indent + INDENT, realText), indent, [0x7D])
    else if IsMultiline(v.elems, realText) then
      var begun := WriteWithIndent(document, indent, [0x5B]);
      WriteWithIndent(WriteElements(v.elems, begun, indent + INDENT, realText), indent, [0x5D])
    else document + [0x5B, 0x20] + Joined(v.elems, realText) + [0x20, 0x5D]
  }

  function WriteMember(m: Member, document: Bytes, indent: Bytes, realText: Bytes -> Bytes): Bytes
    decreases m, 2
  {
    var named := WriteWithIndent(document, indent, JsonStrings.Quoted(CString(m.name))) + [0x20, 0x3A, 0x20];
    WriteValue(m.value, named, indent, realText)
  }

  function WriteMembers(members: seq<Member>, document: Bytes, indent: Bytes, realText: Bytes -> Bytes): Bytes
    decreases members, 0
  {
    if members == [] then document
    else
      var first := WriteMember(members[0], document, indent, realText);
      if |members| == 1 then first else WriteMembers(members[1..], first + [0x2C], indent, realText)
  }

  function WriteElements(elems: seq<JsonValue>, document: Bytes, indent: Bytes, realText: Bytes -> Bytes): Bytes
    decreases elems, 0
  {
    if elems == [] then document
    else
      var first := WriteValue(elems[0], WriteIndent(document, indent), indent, realText);
      if |elems| == 1 then first else WriteElements(elems[1..], first + [0x2C], indent, realText)
  }

  /** `write`. */
  function Write(root: JsonValue, realText: Bytes -> Bytes): Bytes {
    WriteValue(root, [], [], realText) + [0x0A]
  }
}
