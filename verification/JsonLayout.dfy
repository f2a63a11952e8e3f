/** How a written document looks: its lines, how far each is indented, and which arrays are
    written on one line. */
module JsonLayout {
  import opened Bytes
  import opened JsonValues
  import opened JsonPrinting
  import JsonNumbers
  import JsonParsing
  import JsonStrings

  /** A line and its depth; each level is indented by three spaces. */
  datatype Line = Line(depth: nat, text: Bytes)

  function Spaces(n: nat): (s: Bytes)
    ensures |s| == n
  {
    seq(n, _ => 0x20)
  }

  function Document(lines: seq<Line>): Bytes {
    if lines == [] then [] else LineText(lines[0]) + Document(lines[1..])
  }

  function LineText(l: Line): Bytes {
    Spaces(3 * l.depth) + l.text + [0x0A]
  }

  predicate IsScalar(v: JsonValue) {
    (v.Array? ==> v.elems == []) && (v.Object? ==> v.members == [])
  }

  /** The texts of the elements, with a comma and a space between. */
  function Listed(elems: seq<JsonValue>, realText: Bytes -> Bytes): Bytes
    requires forall v :: v in elems ==> IsScalar(v)
  {
    if elems == [] then []
    else
      assert IsScalar(elems[0]) && IsSimple(elems[0]);
      if |elems| == 1 then SimpleText(elems[0], realText)
      else SimpleText(elems[0], realText) + [0x2C, 0x20] + Listed(elems[1..], realText)
  }

  function OneLine(elems: seq<JsonValue>, realText: Bytes -> Bytes): Bytes
    requires forall v :: v in elems ==> IsScalar(v)
  {
    [0x5B, 0x20] + Listed(elems, realText) + [0x20, 0x5D]
  }

  /** An array is written on one line if nothing in it has elements of its own, and the line is
      shorter than 74 bytes, in 32-bit arithmetic; so has to be three times its size. */
  predicate FitsOneLine(elems: seq<JsonValue>, realText: Bytes -> Bytes) {
    && elems != [] && (forall v :: v in elems ==> IsScalar(v))
    && 3 * |elems| % 0x1_0000_0000 < 74
    && |OneLine(elems, realText)| % 0x1_0000_0000 < 74
  }

  /** The lines of a value that stands behind `head` and in front of `tail`. */
  function Lines(v: JsonValue, depth: nat, head: Bytes, tail: Bytes, realText: Bytes -> Bytes): seq<Line>
    decreases v, 1
  {
    if IsScalar(v) then [Line(depth, head + SimpleText(v, realText) + tail)]
    else if v.Object? then
      [Line(depth, head + [0x7B])] + MemberLines(v.members, depth + 1, realText) + [Line(depth, [0x7D] + tail)]
    else if FitsOneLine(v.elems, realText) then [Line(depth, head + OneLine(v.elems, realText) + tail)]
    else [Line(depth, head + [0x5B])] + ElementLines(v.elems, depth + 1, realText) + [Line(depth, [0x5D] + tail)]
  }

  /** Each member starts a line with its name and a colon between spaces. */
  function MemberLines(members: seq<Member>, depth: nat, realText: Bytes -> Bytes): seq<Line>
    decreases members, 0
  {
    if members == [] then []
    else
      var m := members[0];
      var head := JsonStrings.Quoted(CString(m.name)) + [0x20, 0x3A, 0x20];
      Lines(m.value, depth, head, if |members| == 1 then [] else [0x2C], realText)
        + MemberLines(members[1..], depth, realText)
  }

  /** Each element starts a line. */
  function ElementLines(elems: seq<JsonValue>, depth: nat, realText: Bytes -> Bytes): seq<Line>
    decreases elems, 0
  {
    if elems == [] then []
    else
      Lines(elems[0], depth, [], if |elems| == 1 then [] else [0x2C], realText)
        + ElementLines(elems[1..], depth, realText)
  }

  /** No text of a real is empty or ends with a space or a line. */
  ghost predicate PlainReals(realText: Bytes -> Bytes) {
    forall t :: realText(t) != [] && realText(t)[|realText(t)| - 1] !in {0x20, 0x0A}
  }

  // ----- one line or several

  lemma {:induction false} ListedLength(elems: seq<JsonValue>, realText: Bytes -> Bytes)
    requires elems != [] && forall v :: v in elems ==> IsScalar(v)
    ensures Listed(elems, realText) == Joined(elems, realText)
    ensures |Listed(elems, realText)| == 2 * (|elems| - 1) + TextLengths(elems, realText)
  {
    hide SimpleText;
    if |elems| > 1 {
      ListedLength(elems[1..], realText);
    } else {
      assert TextLengths(elems[1..], realText) == 0;
    }
  }

  lemma FitsIs(elems: seq<JsonValue>, realText: Bytes -> Bytes)
    requires elems != []
    ensures FitsOneLine(elems, realText) <==> !IsMultiline(elems, realText)
    ensures FitsOneLine(elems, realText) ==>
              [0x5B, 0x20] + Joined(elems, realText) + [0x20, 0x5D] == OneLine(elems, realText)
  {
    hide Listed, Joined, TextLengths, SimpleText;
    if forall v :: v in elems ==> IsScalar(v) {
      ListedLength(elems, realText);
      assert |OneLine(elems, realText)| == 4 + (|elems| - 1) * 2 + TextLengths(elems, realText);
    }
  }

  // ----- line ends

  predicate EndsPlainly(s: Bytes) {
    s != [] && s[|s| - 1] != 0x20 && s[|s| - 1] != 0x0A
  }

  lemma SimpleEnds(v: JsonValue, realText: Bytes -> Bytes)
    requires IsScalar(v) && PlainReals(realText)
    ensures EndsPlainly(SimpleText(v, realText))
  {
    match v
    case Int(n) => DigitsEnd(if n == JsonNumbers.MIN64 then 1 else if n < 0 then -n else n);
    case Str(s) => assert EndsPlainly(JsonStrings.Quoted(s));
    case Real(t) => assert realText(t) != [];
    case _ =>
  }

  lemma DigitsEnd(n: nat)
    ensures EndsPlainly(JsonNumbers.Digits(n))
  {
  }

  lemma EndsBehind(a: Bytes, b: Bytes)
    requires EndsPlainly(b)
    ensures EndsPlainly(a + b)
  {
  }

  lemma ValueEnds(v: JsonValue, document: Bytes, indent: Bytes, realText: Bytes -> Bytes)
    requires PlainReals(realText)
    ensures EndsPlainly(WriteValue(v, document, indent, realText))
  {
    hide WriteIndent, WriteMembers, WriteElements, SimpleText, Joined, PlainReals;
    if IsScalar(v) {
      SimpleEnds(v, realText);
      EndsBehind(document, SimpleText(v, realText));
    }
  }

  lemma NewLine(document: Bytes, indent: Bytes)
    requires EndsPlainly(document)
    ensures WriteIndent(document, indent) == document + [0x0A] + indent
  {
  }

  lemma SameLine(document: Bytes, indent: Bytes)
    requires if document == [] then indent == [] else document[|document| - 1] == 0x20
    ensures WriteIndent(document, indent) == document
  {
  }

  // ----- lines one behind the other

  lemma {:induction false} DocumentConcat(a: seq<Line>, b: seq<Line>)
    ensures Document(a + b) == Document(a) + Document(b)
  {
    hide LineText;
    if a == [] {
      assert a + b == b;
    } else {
      DocumentConcat(a[1..], b);
      assert (a + b)[1..] == a[1..] + b && (a + b)[0] == a[0];
      Associative(LineText(a[0]), Document(a[1..]), Document(b));
    }
  }

  lemma Associative(x: Bytes, y: Bytes, z: Bytes)
    ensures x + (y + z) == (x + y) + z
  {
  }

  lemma DocumentOne(l: Line)
    ensures Document([l]) == Spaces(3 * l.depth) + l.text + [0x0A]
  {
    assert [l][1..] == [];
  }

  lemma DeeperIs(depth: nat)
    ensures Spaces(3 * depth) + INDENT == Spaces(3 * (depth + 1))
  {
  }

  /** A line that opens, lines inside, and a line that closes. */
  lemma Framed(base: Bytes, depth: nat, head: Bytes, left: Byte, inner: seq<Line>, right: Byte, tail: Bytes)
    ensures var lines := [Line(depth, head + [left])] + inner + [Line(depth, [right] + tail)];
            base + Document(lines)
            == base + Spaces(3 * depth) + head + [left] + [0x0A] + Document(inner) + Spaces(3 * depth) + [right] + tail
               + [0x0A]
  {
    hide Document, Spaces;
    var first, last := Line(depth, head + [left]), Line(depth, [right] + tail);
    DocumentConcat([first] + inner, [last]);
    DocumentConcat([first], inner);
    DocumentOne(first);
    DocumentOne(last);
    var i, d := Spaces(3 * depth), Document(inner);
    assert base + ((i + (head + [left]) + [0x0A]) + d + (i + ([right] + tail) + [0x0A]))
        == base + i + head + [left] + [0x0A] + d + i + [right] + tail + [0x0A];
  }

  lemma Closing(inner: Bytes, begun: Bytes, lines: Bytes, indent: Bytes, right: Byte, tail: Bytes)
    requires inner + [0x0A] == begun + [0x0A] + lines
    ensures inner + [0x0A] + indent + [right] + tail + [0x0A]
         == begun + [0x0A] + lines + indent + [right] + tail + [0x0A]
  {
  }

  // ----- the writer lays out those lines

  /** The document ends where the value's line has got to. */
  predicate Ready(document: Bytes, base: Bytes, depth: nat, head: Bytes) {
    && document == base + Spaces(3 * depth) + head
    && if document == [] then depth == 0 else document[|document| - 1] == 0x20
  }

  lemma {:induction false} ValueLines(v: JsonValue, document: Bytes, base: Bytes, depth: nat, head: Bytes, tail: Bytes,
                                      realText: Bytes -> Bytes)
    requires Ready(document, base, depth, head) && PlainReals(realText)
    ensures WriteValue(v, document, Spaces(3 * depth), realText) + tail + [0x0A]
         == base + Document(Lines(v, depth, head, tail, realText))
    decreases v, 1
  {
    hide Document, Spaces, WriteMembers, WriteElements, WriteIndent, SimpleText, PlainReals, MemberLines, ElementLines,
         OneLine, Joined, IsMultiline;
    SameLine(document, Spaces(3 * depth));
    if IsScalar(v) {
      DocumentOne(Line(depth, head + SimpleText(v, realText) + tail));
    } else if v.Object? {
      ObjectLines(v, document, base, depth, head, tail, realText);
    } else {
      FitsIs(v.elems, realText);
      if FitsOneLine(v.elems, realText) {
        DocumentOne(Line(depth, head + OneLine(v.elems, realText) + tail));
        assert document + [0x5B, 0x20] + Joined(v.elems, realText) + [0x20, 0x5D]
            == document + OneLine(v.elems, realText);
      } else {
        ArrayLines(v, document, base, depth, head, tail, realText);
      }
    }
  }

  lemma {:induction false} ObjectLines(v: JsonValue, document: Bytes, base: Bytes, depth: nat, head: Bytes, tail: Bytes,
                                       realText: Bytes -> Bytes)
    requires Ready(document, base, depth, head) && PlainReals(realText) && v.Object? && v.members != []
    ensures WriteValue(v, document, Spaces(3 * depth), realText) + tail + [0x0A]
         == base + Document(Lines(v, depth, head, tail, realText))
    decreases v, 0
  {
    hide Document, Spaces, WriteMembers, WriteIndent, PlainReals, MemberLines;
    var indent, begun := Spaces(3 * depth), document + [0x7B];
    SameLine(document, indent);
    DeeperIs(depth);
    MembersAsLines(v.members, begun, depth + 1, realText);
    var inner := WriteMembers(v.members, begun, Spaces(3 * (depth + 1)), realText);
    var lines := MemberLines(v.members, depth + 1, realText);
    NewLine(inner, indent);
    assert WriteValue(v, document, indent, realText) == inner + [0x0A] + indent + [0x7D];
    hide WriteValue;
    Framed(base, depth, head, 0x7B, lines, 0x7D, tail);
    Closing(inner, begun, Document(lines), indent, 0x7D, tail);
  }

  lemma {:induction false} ArrayLines(v: JsonValue, document: Bytes, base: Bytes, depth: nat, head: Bytes, tail: Bytes,
                                      realText: Bytes -> Bytes)
    requires Ready(document, base, depth, head) && PlainReals(realText) && v.Array? && v.elems != []
    requires IsMultiline(v.elems, realText) && !FitsOneLine(v.elems, realText)
    ensures WriteValue(v, document, Spaces(3 * depth), realText) + tail + [0x0A]
         == base + Document(Lines(v, depth, head, tail, realText))
    decreases v, 0
  {
    hide Document, Spaces, WriteElements, WriteIndent, PlainReals, ElementLines, IsMultiline, FitsOneLine;
    var indent, begun := Spaces(3 * depth), document + [0x5B];
    SameLine(document, indent);
    DeeperIs(depth);
    ElementsAsLines(v.elems, begun, depth + 1, realText);
    var inner := WriteElements(v.elems, begun, Spaces(3 * (depth + 1)), realText);
    var lines := ElementLines(v.elems, depth + 1, realText);
    NewLine(inner, indent);
    assert WriteValue(v, document, indent, realText) == inner + [0x0A] + indent + [0x5D];
    hide WriteValue;
    Framed(base, depth, head, 0x5B, lines, 0x5D, tail);
    Closing(inner, begun, Document(lines), indent, 0x5D, tail);
  }

  lemma {:induction false} MembersAsLines(members: seq<Member>, document: Bytes, depth: nat, realText: Bytes -> Bytes)
    requires members != [] && EndsPlainly(document) && PlainReals(realText) && depth > 0
    ensures EndsPlainly(WriteMembers(members, document, Spaces(3 * depth), realText))
    ensures WriteMembers(members, document, Spaces(3 * depth), realText) + [0x0A]
         == document + [0x0A] + Document(MemberLines(members, depth, realText))
    decreases members, 0
  {
    hide Document, Spaces, WriteValue, WriteIndent, PlainReals, Lines, CString, JsonStrings.Quoted;
    var m, indent := members[0], Spaces(3 * depth);
    var base := document + [0x0A];
    var head := JsonStrings.Quoted(CString(m.name)) + [0x20, 0x3A, 0x20];
    NewLine(document, indent);
    var named := base + indent + head;
    assert WriteIndent(document, indent) + JsonStrings.Quoted(CString(m.name)) + [0x20, 0x3A, 0x20] == named;
    var first := WriteValue(m.value, named, indent, realText);
    assert first == WriteMember(m, document, indent, realText);
    ValueEnds(m.value, named, indent, realText);
    var tail := if |members| == 1 then [] else [0x2C];
    assert Ready(named, base, depth, head);
    ValueLines(m.value, named, base, depth, head, tail, realText);
    var lines := Lines(m.value, depth, head, tail, realText);
    DocumentConcat(lines, MemberLines(members[1..], depth, realText));
    if |members| == 1 {
      assert Document(MemberLines(members[1..], depth, realText)) == [] by { NoLines(); }
      assert first + [] == first;
    } else {
      MembersAsLines(members[1..], first + [0x2C], depth, realText);
    }
  }

  lemma NoLines()
    ensures Document([]) == []
  {
  }

  lemma StartsReady(base: Bytes, depth: nat)
    requires depth > 0
    ensures Ready(base + Spaces(3 * depth), base, depth, [])
  {
    var s := base + Spaces(3 * depth);
    assert s[|s| - 1] == Spaces(3 * depth)[3 * depth - 1];
  }

  lemma {:induction false} ElementsAsLines(elems: seq<JsonValue>, document: Bytes, depth: nat, realText: Bytes -> Bytes)
    requires elems != [] && EndsPlainly(document) && PlainReals(realText) && depth > 0
    ensures EndsPlainly(WriteElements(elems, document, Spaces(3 * depth), realText))
    ensures WriteElements(elems, document, Spaces(3 * depth), realText) + [0x0A]
         == document + [0x0A] + Document(ElementLines(elems, depth, realText))
    decreases elems, 0
  {
    hide Document, Spaces, WriteValue, WriteIndent, PlainReals, Lines, Ready;
    var indent, base := Spaces(3 * depth), document + [0x0A];
    var started := base + indent;
    StartsReady(base, depth);
    NewLine(document, indent);
    assert WriteIndent(document, indent) == started;
    var first := WriteValue(elems[0], started, indent, realText);
    ValueEnds(elems[0], started, indent, realText);
    var tail := if |elems| == 1 then [] else [0x2C];
    ValueLines(elems[0], started, base, depth, [], tail, realText);
    var lines := Lines(elems[0], depth, [], tail, realText);
    if |elems| == 1 {
      OneElement(elems, depth, realText);
      assert first + [] == first;
    } else {
      var more := ElementLines(elems[1..], depth, realText);
      DocumentConcat(lines, more);
      ElementsAsLines(elems[1..], first + [0x2C], depth, realText);
      assert ElementLines(elems, depth, realText) == lines + more;
    }
  }

  lemma OneElement(elems: seq<JsonValue>, depth: nat, realText: Bytes -> Bytes)
    requires |elems| == 1
    ensures ElementLines(elems, depth, realText) == Lines(elems[0], depth, [], [], realText)
  {
    hide Lines;
    assert ElementLines(elems[1..], depth, realText) == [];
  }

  /** A written document is exactly those lines: every value at the depth it is nested, an array
      on one line exactly if it fits. */
  lemma WrittenAsLines(v: JsonValue, realText: Bytes -> Bytes)
    requires PlainReals(realText)
    ensures Write(v, realText) == Document(Lines(v, 0, [], [], realText))
  {
    hide WriteValue, Document, Lines, PlainReals;
    assert Spaces(0) == [] && [] + Spaces(0) + [] == [];
    ValueLines(v, [], [], 0, [], [], realText);
    assert WriteValue(v, [], [], realText) + [] == WriteValue(v, [], [], realText);
    assert [] + Document(Lines(v, 0, [], [], realText)) == Document(Lines(v, 0, [], [], realText));
  }
}
