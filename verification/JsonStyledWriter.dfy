/** The class `JsonStyledWriter` of src/common/json.cpp. Each method is proved to compute the
    function of JsonPrinting that describes it. */
module JsonStyledWriter {
  import opened Bytes
  import opened JsonValues
  import opened JsonPrinting
  import JsonNumbers
  import JsonParsing
  import JsonStrings

  class JsonStyledWriter {
    var m_childValues: seq<Bytes>
    var m_document: Bytes
    var m_indentString: Bytes
    var m_addChildValues: bool
    /** The C library's formatting of floating-point numbers. */
    const realText: Bytes -> Bytes

    constructor (realText: Bytes -> Bytes)
    {
      m_childValues, m_document, m_indentString, m_addChildValues := [], [], [], false;
      this.realText := realText;
    }

    // ----- strings

    static method DoesAnyCharRequireEscaping(s: Bytes) returns (r: bool)
      ensures r <==> exists i :: 0 <= i < |s| && JsonStrings.NeedsEscape(s[i])
    {
      for i := 0 to |s|
        invariant forall k :: 0 <= k < i ==> !JsonStrings.NeedsEscape(s[k])
      {
        if JsonStrings.NeedsEscape(s[i]) {
          return true;
        }
      }
      return false;
    }

    /** `valueToQuotedStringN`. */
    static method ValueToQuotedStringN(value: Bytes) returns (result: Bytes)
      ensures result == JsonStrings.Quoted(value)
    {
      hide JsonStrings.EscapeFront, JsonStrings.EscapedText, JsonStrings.Quoted;
      var escape := DoesAnyCharRequireEscaping(value);
      if !escape {
        PlainQuoted(value);
        return [JsonStrings.QUOTE] + value + [JsonStrings.QUOTE];
      }
      JsonStrings.QuotedIsEscaped(value);
      result := [JsonStrings.QUOTE];
      var c := 0;
      assert value[0..] == value;
      while c != |value|
        invariant c <= |value|
        invariant result + JsonStrings.EscapedText(value[c..]) == [JsonStrings.QUOTE] + JsonStrings.EscapedText(value)
        decreases |value| - c
      {
        var escaped := JsonStrings.EscapeFront(value[c..]);
        assert value[c..][escaped.1..] == value[c + escaped.1..];
        Unfold(result, value[c..]);
        result := result + escaped.0;
        c := c + escaped.1;
      }
      NothingLeft(result);
      result := result + [JsonStrings.QUOTE];
    }

    static lemma PlainQuoted(value: Bytes)
      requires forall i :: 0 <= i < |value| ==> !JsonStrings.NeedsEscape(value[i])
      ensures JsonStrings.Quoted(value) == [JsonStrings.QUOTE] + value + [JsonStrings.QUOTE]
    {
      hide JsonStrings.EscapedText;
    }

    static lemma NothingLeft(result: Bytes)
      ensures result + JsonStrings.EscapedText([]) == result
    {
    }

    static lemma Unfold(result: Bytes, s: Bytes)
      requires s != []
      ensures result + JsonStrings.EscapedText(s)
           == result + JsonStrings.EscapeFront(s).0 + JsonStrings.EscapedText(s[JsonStrings.EscapeFront(s).1..])
    {
      hide JsonStrings.EscapeFront;
      var tail := JsonStrings.EscapedText(s[JsonStrings.EscapeFront(s).1..]);
      assert result + (JsonStrings.EscapeFront(s).0 + tail) == result + JsonStrings.EscapeFront(s).0 + tail;
    }

    // ----- the document

    method PushValue(value: Bytes)
      modifies this`m_childValues, this`m_document
      ensures if m_addChildValues then m_childValues == old(m_childValues) + [value] && m_document == old(m_document)
              else m_document == old(m_document) + value && m_childValues == old(m_childValues)
    {
      if m_addChildValues {
        m_childValues := m_childValues + [value];
      } else {
        m_document := m_document + value;
      }
    }

    method WriteIndent()
      modifies this`m_document
      ensures m_document == JsonPrinting.WriteIndent(old(m_document), m_indentString)
    {
      if m_document != [] {
        var last := m_document[|m_document| - 1];
        if last == 0x20 {
          return;
        }
        if last != 0x0A {
          m_document := m_document + [0x0A];
        }
      }
      m_document := m_document + m_indentString;
    }

    method WriteWithIndent(value: Bytes)
      modifies this`m_document
      ensures m_document == JsonPrinting.WriteWithIndent(old(m_document), m_indentString, value)
    {
      WriteIndent();
      m_document := m_document + value;
    }

    method Indent()
      modifies this`m_indentString
      ensures m_indentString == old(m_indentString) + INDENT
    {
      m_indentString := m_indentString + INDENT;
    }

    method Unindent()
      requires |m_indentString| >= |INDENT|
      modifies this`m_indentString
      ensures m_indentString == old(m_indentString)[..|old(m_indentString)| - |INDENT|]
    {
      m_indentString := m_indentString[..|m_indentString| - |INDENT|];
    }

    // ----- values

    /** Simple values, into the document or the collected child texts. */
    method WriteSimple(value: JsonValue)
      requires IsSimple(value) && (value.Int? ==> JsonNumbers.MIN64 <= value.n <= JsonNumbers.MAX64)
      modifies this`m_childValues, this`m_document
      ensures var text := SimpleText(value, realText);
              if m_addChildValues then m_childValues == old(m_childValues) + [text] && m_document == old(m_document)
              else m_document == old(m_document) + text && m_childValues == old(m_childValues)
    {
      hide JsonNumbers.IntText, JsonStrings.Quoted;
      match value {
        case Null => PushValue(JsonParsing.NULL_TEXT);
        case Int(n) =>
          var text := JsonNumbers.ValueToString(n);
          PushValue(text);
        case Real(token) => PushValue(realText(token));
        case Str(s) =>
          var text := ValueToQuotedStringN(s);
          PushValue(text);
        case Bool(b) => PushValue(if b then JsonParsing.TRUE_TEXT else JsonParsing.FALSE_TEXT);
        case Array(_) => PushValue([0x5B, 0x5D]);
        case Object(_) => PushValue([0x7B, 0x7D]);
      }
    }

    /** `WriteValue`. While child texts are collected only simple values are written. */
    method WriteValue(value: JsonValue)
      requires InRange(value) && !m_addChildValues
      modifies this`m_childValues, this`m_document, this`m_indentString, this`m_addChildValues
      ensures !m_addChildValues && m_indentString == old(m_indentString)
      ensures m_document == JsonPrinting.WriteValue(value, old(m_document), m_indentString, realText)
      decreases value, 3
    {
      hide JsonPrinting.WriteMembers, JsonPrinting.WriteElements, IsMultiline, SimpleText, JsonPrinting.WriteIndent;
      if IsSimple(value) {
        WriteSimple(value);
      } else if value.Array? {
        WriteArrayValue(value);
      } else {
        WriteWithIndent([0x7B]);
        Indent();
        ghost var indent := m_indentString;
        var index := 0;
        ghost var begun := m_document;
        while true
          invariant 0 <= index < |value.members| && !m_addChildValues && m_indentString == indent
          invariant JsonPrinting.WriteMembers(value.members[index..], m_document, indent, realText)
                 == JsonPrinting.WriteMembers(value.members, begun, indent, realText)
          decreases |value.members| - index
        {
          MembersTurn(value.members, index, m_document, indent);
          WriteMember(value, index);
          index := index + 1;
          if index == |value.members| {
            break;
          }
          m_document := m_document + [0x2C];
        }
        Unindent();
        WriteWithIndent([0x7D]);
      }
    }

    ghost predicate InRange(value: JsonValue) {
      match value
      case Int(n) => JsonNumbers.MIN64 <= n <= JsonNumbers.MAX64
      case Array(elems) => |elems| < TWO32 && forall e :: e in elems ==> InRange(e)
      case Object(members) => forall m :: m in members ==> InRange(m.value)
      case _ => true
    }

    lemma MembersTurn(members: seq<Member>, index: nat, document: Bytes, indent: Bytes)
      requires index < |members|
      ensures var first := JsonPrinting.WriteMember(members[index], document, indent, realText);
              JsonPrinting.WriteMembers(members[index..], document, indent, realText)
              == if index + 1 == |members| then first
                 else JsonPrinting.WriteMembers(members[index + 1..], first + [0x2C], indent, realText)
    {
      hide JsonPrinting.WriteMember;
      assert members[index..][1..] == members[index + 1..];
    }

    method WriteMember(parent: JsonValue, index: nat)
      requires parent.Object? && index < |parent.members| && InRange(parent) && !m_addChildValues
      modifies this`m_childValues, this`m_document, this`m_indentString, this`m_addChildValues
      ensures !m_addChildValues && m_indentString == old(m_indentString)
      ensures m_document == JsonPrinting.WriteMember(parent.members[index], old(m_document), m_indentString, realText)
      decreases parent, 2
    {
      hide JsonPrinting.WriteIndent, CString, JsonStrings.Quoted;
      var name := parent.members[index].name;
      var quoted := ValueToQuotedStringN(CString(name));
      WriteWithIndent(quoted);
      m_document := m_document + [0x20, 0x3A, 0x20];
      assert parent.members[index] in parent.members;
      WriteValue(parent.members[index].value);
    }

    method WriteArrayValue(value: JsonValue)
      requires value.Array? && value.elems != [] && InRange(value) && !m_addChildValues
      modifies this`m_childValues, this`m_document, this`m_indentString, this`m_addChildValues
      ensures !m_addChildValues && m_indentString == old(m_indentString)
      ensures m_document == JsonPrinting.WriteValue(value, old(m_document), m_indentString, realText)
      decreases value, 2
    {
      hide JsonPrinting.WriteElements, IsMultiline, SimpleText, JsonPrinting.WriteIndent;
      var isArrayMultiLine := IsMultilineArray(value.elems);
      if isArrayMultiLine {
        WriteWithIndent([0x5B]);
        Indent();
        ghost var indent := m_indentString;
        ghost var texts := m_childValues;
        var hasChildValue := m_childValues != [];
        ghost var begun := m_document;
        var index := 0;
        while true
          invariant 0 <= index < |value.elems| && !m_addChildValues && m_indentString == indent
          invariant hasChildValue ==> m_childValues == texts
          invariant JsonPrinting.WriteElements(value.elems[index..], m_document, indent, realText)
                 == JsonPrinting.WriteElements(value.elems, begun, indent, realText)
          decreases |value.elems| - index
        {
          ElementsTurn(value.elems, index, m_document, indent);
          if hasChildValue {
            WriteWithIndent(m_childValues[index]);
          } else {
            WriteElement(value, index);
          }
          index := index + 1;
          if index == |value.elems| {
            break;
          }
          m_document := m_document + [0x2C];
        }
        Unindent();
        WriteWithIndent([0x5D]);
      } else {
        WriteSingleLine(value.elems);
      }
    }

    lemma ElementsTurn(elems: seq<JsonValue>, index: nat, document: Bytes, indent: Bytes)
      requires index < |elems|
      ensures var first :=
        JsonPrinting.WriteValue(elems[index], JsonPrinting.WriteIndent(document, indent), indent, realText);
              && JsonPrinting.WriteElements(elems[index..], document, indent, realText)
                 == (if index + 1 == |elems| then first
                     else JsonPrinting.WriteElements(elems[index + 1..], first + [0x2C], indent, realText))
              && (IsSimple(elems[index]) ==>
                  first == JsonPrinting.WriteWithIndent(document, indent, SimpleText(elems[index], realText)))
    {
      hide JsonPrinting.WriteIndent, SimpleText, JsonPrinting.WriteMembers, IsMultiline;
      assert elems[index..][1..] == elems[index + 1..];
    }

    method WriteElement(parent: JsonValue, index: nat)
      requires parent.Array? && index < |parent.elems| && InRange(parent) && !m_addChildValues
      modifies this`m_childValues, this`m_document, this`m_indentString, this`m_addChildValues
      ensures !m_addChildValues && m_indentString == old(m_indentString)
      ensures m_document == JsonPrinting.WriteValue(parent.elems[index],
                              JsonPrinting.WriteIndent(old(m_document), m_indentString), m_indentString, realText)
      decreases parent, 1
    {
      hide JsonPrinting.WriteIndent, JsonPrinting.WriteValue;
      WriteIndent();
      assert parent.elems[index] in parent.elems;
      WriteValue(parent.elems[index]);
    }

    /** `IsMultilineArray`: the child texts are collected unless the size or a nested child
        settles the matter before. */
    method IsMultilineArray(elems: seq<JsonValue>) returns (isMultiLine: bool)
      requires elems != [] && |elems| < TWO32 && (forall e :: e in elems ==> InRange(e)) && !m_addChildValues
      modifies this`m_childValues, this`m_document, this`m_addChildValues
      ensures !m_addChildValues && m_document == old(m_document)
      ensures isMultiLine == IsMultiline(elems, realText)
      ensures m_childValues == [] || IsTexts(m_childValues, elems)
      ensures !isMultiLine ==> IsTexts(m_childValues, elems)
    {
      hide SimpleText;
      isMultiLine := |elems| * 3 % TWO32 >= RIGHT_MARGIN;
      m_childValues := [];
      var index := 0;
      while index < |elems| && !isMultiLine
        invariant index <= |elems|
        invariant !isMultiLine ==> |elems| * 3 % TWO32 < RIGHT_MARGIN && forall k :: 0 <= k < index ==>
          IsSimple(elems[k])
        invariant isMultiLine ==> IsMultiline(elems, realText)
      {
        isMultiLine := !IsSimple(elems[index]);
        assert elems[index] in elems;
        index := index + 1;
      }
      if !isMultiLine {
        assert forall e :: e in elems ==> IsSimple(e);
        m_addChildValues := true;
        var lineLength := CollectTexts(elems);
        m_addChildValues := false;
        isMultiLine := isMultiLine || lineLength >= RIGHT_MARGIN;
      }
    }

    ghost predicate IsTexts(texts: seq<Bytes>, elems: seq<JsonValue>) {
      |texts| == |elems| && forall i :: 0 <= i < |elems| ==>
        IsSimple(elems[i]) && texts[i] == SimpleText(elems[i], realText)
    }

    method CollectTexts(elems: seq<JsonValue>) returns (lineLength: nat)
      requires elems != [] && |elems| < TWO32 && m_addChildValues && m_childValues == []
      requires forall e :: e in elems ==> IsSimple(e) && InRange(e)
      modifies this`m_childValues, this`m_document
      ensures m_document == old(m_document) && IsTexts(m_childValues, elems)
      ensures lineLength == (4 + (|elems| - 1) * 2 + TextLengths(elems, realText)) % TWO32
    {
      hide SimpleText;
      lineLength := (4 + (|elems| - 1) * 2 % TWO32) % TWO32;
      WrappedSum((|elems| - 1) * 2, 4);
      ghost var total: nat := 4 + (|elems| - 1) * 2;
      assert elems[0..] == elems;
      for index := 0 to |elems|
        invariant |m_childValues| == index && m_document == old(m_document)
        invariant forall i :: 0 <= i < index ==> m_childValues[i] == SimpleText(elems[i], realText)
        invariant lineLength == total % TWO32
        invariant total + TextLengths(elems[index..], realText) == 4 + (|elems| - 1) * 2 + TextLengths(elems, realText)
      {
        assert elems[index] in elems && elems[index..][1..] == elems[index + 1..];
        WriteSimple(elems[index]);
        WrappedSum(total, |m_childValues[index]|);
        total := total + |m_childValues[index]|;
        lineLength := (lineLength + |m_childValues[index]|) % TWO32;
      }
    }

    static lemma WrappedSum(x: nat, y: nat)
      ensures (x % TWO32 + y) % TWO32 == (x + y) % TWO32
    {
    }

    method WriteSingleLine(elems: seq<JsonValue>)
      requires elems != [] && IsTexts(m_childValues, elems) && (forall e :: e in elems ==> IsSimple(e))
      modifies this`m_document
      ensures m_document == old(m_document) + [0x5B, 0x20] + Joined(elems, realText) + [0x20, 0x5D]
    {
      hide SimpleText, Joined, LineFrom;
      m_document := m_document + [0x5B, 0x20];
      ghost var begun := m_document;
      WholeLine(elems);
      for index := 0 to |elems|
        invariant m_document + LineFrom(elems, index) == begun + Joined(elems, realText)
      {
        ghost var before := m_document;
        if index > 0 {
          m_document := m_document + [0x2C, 0x20];
        }
        m_document := m_document + m_childValues[index];
        JoinTurn(before, elems, index);
      }
      m_document := m_document + [0x20, 0x5D];
    }

    /** What is still to be written of the line, separators included, from an element on. */
    ghost function LineFrom(elems: seq<JsonValue>, index: nat): Bytes
      requires index <= |elems| && (forall e :: e in elems ==> IsSimple(e))
    {
      if index == |elems| then []
      else (if index > 0 then [0x2C, 0x20] else []) + Joined(elems[index..], realText)
    }

    lemma WholeLine(elems: seq<JsonValue>)
      requires elems != [] && (forall e :: e in elems ==> IsSimple(e))
      ensures LineFrom(elems, 0) == Joined(elems, realText) && LineFrom(elems, |elems|) == []
    {
      hide SimpleText, Joined;
      assert elems[0..] == elems;
    }

    lemma JoinTurn(document: Bytes, elems: seq<JsonValue>, index: nat)
      requires index < |elems| && (forall e :: e in elems ==> IsSimple(e))
      ensures var separated := if index > 0 then document + [0x2C, 0x20] else document;
              separated + SimpleText(elems[index], realText) + LineFrom(elems, index + 1)
                == document + LineFrom(elems, index)
    {
      hide SimpleText;
      assert elems[index..][1..] == elems[index + 1..];
    }

    /** `write`. */
    method Write(root: JsonValue) returns (document: Bytes)
      requires InRange(root)
      modifies this
      ensures document == JsonPrinting.Write(root, realText)
    {
      hide JsonPrinting.WriteValue;
      m_document := [];
      m_addChildValues := false;
      m_indentString := [];
      WriteValue(root);
      m_document := m_document + [0x0A];
      document := m_document;
    }
  }
}
