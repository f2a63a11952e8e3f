/** The reader accepts exactly the texts of the grammar, and reads what they mean. */
module JsonAccepts {
  import opened Bytes
  import opened Options
  import opened JsonValues
  import opened JsonParsing
  import opened JsonGrammar
  import opened JsonNumerals
  import opened JsonTexts
  import JsonNumbers
  import JsonRecovery
  import JsonRoundTrip
  import JsonStrings

  // ----- blanks and tokens

  lemma SpaceIs(c: Byte)
    ensures IsSpace(c) <==> c as char in {' ', '\t', '\r', '\n'}
  {
  }

  lemma BlankIs(b: Bytes)
    ensures JsonRoundTrip.Blank(b) <==> Blank(b)
  {
    forall i | 0 <= i < |b|
      ensures IsSpace(b[i]) <==> b[i] as char in {' ', '\t', '\r', '\n'}
    {
      SpaceIs(b[i]);
    }
  }

  lemma TokenBehind(b: Bytes, s: Bytes)
    requires Blank(b)
    ensures ReadToken(b + s) == ReadToken(s) && SkipSpaces(b + s) == SkipSpaces(s)
  {
    hide Blank, ReadToken;
    BlankIs(b);
    JsonRoundTrip.BlanksSkipped(b, s);
    JsonRoundTrip.TokenBehindBlanks(b, s);
  }

  lemma ValueBehind(b: Bytes, s: Bytes, current: JsonValue, errors: seq<Error>, readable: Bytes -> bool)
    requires Blank(b)
    ensures ReadValue(b + s, current, errors, readable) == ReadValue(s, current, errors, readable)
  {
    hide Blank, ReadValue;
    BlankIs(b);
    JsonRoundTrip.ValueBehindBlanks(b, s, current, errors, readable);
  }

  predicate Closes(rest: Bytes) {
    rest == [] || rest[0] as char in {',', ']', '}'}
  }

  lemma StopsBehind(after: Bytes, rest: Bytes)
    requires Blank(after) && Closes(rest)
    ensures Stops(after + rest)
  {
    if after == [] {
      assert after + rest == rest;
    } else {
      assert (after + rest)[0] == after[0];
    }
  }

  lemma NameToken(cs: seq<Char>, rest: Bytes)
    requires LegalText(cs)
    ensures ReadToken(SpellName(cs) + rest) == Lexed(Token(StringToken, SpellName(cs)), rest)
    ensures StringOf(SpellName(cs)) == JsonStrings.Text(TextMeans(cs))
  {
    hide LegalText, SpellText, TextMeans, JsonStrings.ScanString, JsonStrings.DecodeText;
    var q := SpellName(cs);
    var t := q + rest;
    TextScans(cs, rest);
    TextDecodes(cs);
    assert t[1..] == SpellText(cs) + ([0x22] + rest);
    assert SkipSpaces(t) == t;
    assert Front(t) == (StringToken, |q|);
    assert t[..|q|] == q && t[|q|..] == rest;
    assert q[1..|q| - 1] == SpellText(cs);
  }

  lemma Punctuation(c: Byte, rest: Bytes)
    requires c in {0x7B, 0x7D, 0x5B, 0x5D, 0x2C, 0x3A}
    ensures ReadToken([c] + rest).rest == rest
    ensures ReadToken([c] + rest).token.kind ==
      if c == 0x7B then ObjectBegin else if c == 0x7D then ObjectEnd else if c == 0x5B then ArrayBegin
      else if c == 0x5D then ArrayEnd else if c == 0x2C then ArraySeparator else MemberSeparator
  {
    JsonRoundTrip.PunctuationToken(c, rest);
  }

  // ----- one step of each loop

  lemma ElementsStep(s: Bytes, done: seq<JsonValue>, v: JsonValue, left: Bytes, errors: seq<Error>,
                     readable: Bytes -> bool)
    requires ReadValue(s, Null, errors, readable) == Outcome(true, v, left, errors)
    ensures var l := ReadToken(left);
            && (l.token.kind == ArrayEnd ==>
                  ReadElements(s, done, errors, readable) == Outcome(true, Array(done + [v]), l.rest, errors))
            && (l.token.kind == ArraySeparator ==>
                  ReadElements(s, done, errors, readable) == ReadElements(l.rest, done + [v], errors, readable))
  {
    hide ReadToken, ReadValue, Recover;
  }

  lemma MembersStep(s: Bytes, members: seq<Member>, name: Bytes, name': Bytes, v: JsonValue, left: Bytes,
                    errors: seq<Error>, readable: Bytes -> bool)
    requires var l := ReadToken(s);
             && l.token.kind == StringToken && StringOf(l.token.text) == JsonStrings.Text(name')
             && var c := ReadToken(l.rest);
                c.token.kind == MemberSeparator
                && ReadValue(c.rest, Lookup(members, name'), errors, readable) == Outcome(true, v, left, errors)
    ensures var l := ReadToken(left);
            var members' := Insert(members, name', v);
            && (l.token.kind == ObjectEnd ==>
                  ReadMembers(s, members, name, errors, readable) == Outcome(true, Object(members'), l.rest, errors))
            && (l.token.kind == ArraySeparator ==>
                  ReadMembers(s, members, name, errors, readable)
                  == ReadMembers(l.rest, members', name', errors, readable))
  {
    hide ReadToken, ReadValue, Recover, StringOf, Insert, Lookup;
    MemberStep(ReadToken(s).rest, members, name', v, left, errors, readable);
    hide ReadMember;
  }

  lemma MemberStep(s: Bytes, members: seq<Member>, name: Bytes, v: JsonValue, left: Bytes,
                   errors: seq<Error>, readable: Bytes -> bool)
    requires var c := ReadToken(s);
             c.token.kind == MemberSeparator
             && ReadValue(c.rest, Lookup(members, name), errors, readable) == Outcome(true, v, left, errors)
    ensures var l := ReadToken(left);
            var members' := Insert(members, name, v);
            && (l.token.kind == ObjectEnd ==>
                  ReadMember(s, members, name, errors, readable) == Outcome(true, Object(members'), l.rest, errors))
            && (l.token.kind == ArraySeparator ==>
                  ReadMember(s, members, name, errors, readable)
                  == ReadMembers(l.rest, members', name, errors, readable))
  {
    hide ReadToken, ReadValue, Recover, Insert, Lookup, ReadMembers;
  }

  // ----- every text of the grammar is read

  lemma FirstByte(t: Tree, readable: Bytes -> bool)
    requires Legal(t, readable)
    ensures Spell(t) != [] && !IsSpace(Spell(t)[0]) && Spell(t)[0] != 0x5D
  {
    match t
    case NumberTree(n) =>
      if !n.minus {
        assert '0' <= n.whole[0] as char <= '9';
      }
    case _ =>
  }

  lemma NotClosing(s: Bytes)
    requires s != [] && !IsSpace(s[0]) && s[0] != 0x5D
    ensures SkipSpaces(s) == s && ReadToken(s).token.kind != ArrayEnd
  {
    hide JsonStrings.ScanString, NumberTail;
  }

  lemma NumberReads(n: Number, rest: Bytes, current: JsonValue, errors: seq<Error>, readable: Bytes -> bool)
    requires Legal(NumberTree(n), readable) && Stops(rest)
    ensures ReadValue(SpellNumber(n) + rest, current, errors, readable)
         == Outcome(true, Means(NumberTree(n), readable), rest, errors)
  {
    hide SpellNumber, ReadToken, LegalNumber, AsInteger, JsonNumbers.DecodeNumber, ReadMembers, ReadArray, StringValue,
         Stops;
    JsonNumerals.NumberToken(n, rest);
    NumberDecodes(n);
  }

  lemma StringReads(cs: seq<Char>, rest: Bytes, current: JsonValue, errors: seq<Error>, readable: Bytes -> bool)
    requires LegalText(cs)
    ensures ReadValue(SpellName(cs) + rest, current, errors, readable)
         == Outcome(true, Str(TextMeans(cs)), rest, errors)
  {
    hide SpellName, ReadToken, LegalText, TextMeans, StringOf, ReadMembers, ReadArray, NumberValue;
    NameToken(cs, rest);
  }

  lemma KeywordReads(t: Tree, rest: Bytes, current: JsonValue, errors: seq<Error>, readable: Bytes -> bool)
    requires t.NullTree? || t.TrueTree? || t.FalseTree?
    ensures ReadValue(Spell(t) + rest, current, errors, readable) == Outcome(true, Means(t, readable), rest, errors)
  {
    hide ReadToken, ReadMembers, ReadArray, NumberValue, StringValue;
    match t
    case NullTree => JsonRoundTrip.KeywordToken(NULL_TEXT, NullToken, rest);
    case TrueTree => JsonRoundTrip.KeywordToken(TRUE_TEXT, TrueToken, rest);
    case FalseTree => JsonRoundTrip.KeywordToken(FALSE_TEXT, FalseToken, rest);
  }

  lemma EmptyArrayReads(b: Bytes, rest: Bytes, current: JsonValue, errors: seq<Error>, readable: Bytes -> bool)
    requires Blank(b)
    ensures ReadValue([0x5B] + b + [0x5D] + rest, current, errors, readable) == Outcome(true, Array([]), rest, errors)
  {
    hide ReadToken, ReadElements, ReadMembers, Blank;
    var tail := b + ([0x5D] + rest);
    assert [0x5B] + b + [0x5D] + rest == [0x5B] + tail;
    Punctuation(0x5B, tail);
    TokenBehind(b, [0x5D] + rest);
    assert SkipSpaces([0x5D] + rest) == [0x5D] + rest && ([0x5D] + rest)[1..] == rest;
  }

  lemma EmptyObjectReads(b: Bytes, rest: Bytes, current: JsonValue, errors: seq<Error>, readable: Bytes -> bool)
    requires Blank(b)
    ensures ReadValue([0x7B] + b + [0x7D] + rest, current, errors, readable) == Outcome(true, Object([]), rest, errors)
  {
    hide ReadToken, ReadElements, ReadArray, Blank;
    var tail := b + ([0x7D] + rest);
    assert [0x7B] + b + [0x7D] + rest == [0x7B] + tail;
    Punctuation(0x7B, tail);
    TokenBehind(b, [0x7D] + rest);
    Punctuation(0x7D, rest);
  }

  lemma {:induction false} TreeReads(t: Tree, rest: Bytes, current: JsonValue, errors: seq<Error>,
                                     readable: Bytes -> bool)
    requires Legal(t, readable) && Stops(rest)
    ensures ReadValue(Spell(t) + rest, current, errors, readable) == Outcome(true, Means(t, readable), rest, errors)
    decreases t, 0
  {
    hide ReadValue, Stops, Blank, LegalText, LegalNumber, SpellItems, SpellEntries, LegalItems, LegalEntries, SpellName,
         SpellNumber, TextMeans, AsInteger, ItemsMean, Settled, ReadMembers, ReadElements;
    match t
    case NumberTree(n) => NumberReads(n, rest, current, errors, readable);
    case StringTree(cs) => StringReads(cs, rest, current, errors, readable);
    case EmptyArray(b) => EmptyArrayReads(b, rest, current, errors, readable);
    case EmptyObject(b) => EmptyObjectReads(b, rest, current, errors, readable);
    case ArrayTree(items) =>
      ItemsRead(items, [], rest, errors, readable);
      ArrayOpens(items, rest, current, errors, readable);
      assert [] + ItemsMean(items, readable) == ItemsMean(items, readable);
    case ObjectTree(entries) =>
      EntriesRead(entries, [], [], rest, errors, readable);
      ObjectOpens(SpellEntries(entries) + rest, current, errors, readable);
      assert Spell(t) + rest == [0x7B] + (SpellEntries(entries) + rest);
    case _ => KeywordReads(t, rest, current, errors, readable);
  }

  lemma ObjectOpens(s: Bytes, current: JsonValue, errors: seq<Error>, readable: Bytes -> bool)
    ensures ReadValue([0x7B] + s, current, errors, readable) == ReadMembers(s, [], [], errors, readable)
  {
    hide ReadToken, ReadMembers, ReadArray;
    Punctuation(0x7B, s);
  }

  lemma ArrayOpens(items: Items, rest: Bytes, current: JsonValue, errors: seq<Error>, readable: Bytes -> bool)
    requires LegalItems(items, readable)
    ensures ReadValue([0x5B] + SpellItems(items) + rest, current, errors, readable)
         == ReadElements(SpellItems(items) + rest, [], errors, readable)
  {
    var s := SpellItems(items) + rest;
    assert [0x5B] + SpellItems(items) + rest == [0x5B] + s;
    Punctuation(0x5B, s);
    ItemsDoNotClose(items, rest, readable);
    hide ReadToken, ReadElements, ReadValue, SpellItems;
    JsonRoundTrip.ArrayStarts([0x5B] + s, current, errors, readable);
  }

  lemma ItemsDoNotClose(items: Items, rest: Bytes, readable: Bytes -> bool)
    requires LegalItems(items, readable)
    ensures ReadToken(SpellItems(items) + rest).token.kind != ArrayEnd
  {
    var i := items.item;
    var more := SpellItems(items)[|i.before|..] + rest;
    FirstByte(i.tree, readable);
    ItemInFront(items);
    hide ReadToken, SpellItems, Blank, Legal, Spell;
    assert SpellItems(items) + rest == i.before + more;
    TokenBehind(i.before, more);
    NotClosing(more);
  }

  lemma ItemInFront(items: Items)
    ensures var i := items.item;
            && i.before <= SpellItems(items)
            && Spell(i.tree) <= SpellItems(items)[|i.before|..]
  {
    var i := items.item;
    hide Spell;
    match items
    case LastItem(_) =>
      assert SpellItems(items) == i.before + (Spell(i.tree) + (i.after + [0x5D]));
    case MoreItems(_, more) =>
      assert SpellItems(items) == i.before + (Spell(i.tree) + (i.after + [0x2C] + SpellItems(more)));
  }

  lemma {:induction false} ItemReads(i: Item, rest: Bytes, current: JsonValue, errors: seq<Error>,
                                     readable: Bytes -> bool)
    requires Padded(i) && Legal(i.tree, readable) && Closes(rest)
    ensures ReadValue(SpellItem(i) + rest, current, errors, readable)
         == Outcome(true, Means(i.tree, readable), i.after + rest, errors)
    decreases i.tree, 1
  {
    hide ReadValue, Blank, Closes, Stops, Spell, Legal, Means;
    StopsBehind(i.after, rest);
    TreeReads(i.tree, i.after + rest, current, errors, readable);
    ValueBehind(i.before, Spell(i.tree) + (i.after + rest), current, errors, readable);
    assert SpellItem(i) + rest == i.before + (Spell(i.tree) + (i.after + rest));
  }

  /** An element and the mark behind it. */
  lemma {:induction false} ElementReads(i: Item, done: seq<JsonValue>, mark: Byte, next: Bytes, errors: seq<Error>,
                                        readable: Bytes -> bool)
    requires Padded(i) && Legal(i.tree, readable) && mark in {0x2C, 0x5D}
    ensures var v := Means(i.tree, readable);
            ReadElements(SpellItem(i) + ([mark] + next), done, errors, readable)
            == if mark == 0x5D then Outcome(true, Array(done + [v]), next, errors)
               else ReadElements(next, done + [v], errors, readable)
    decreases i.tree, 2
  {
    hide ReadElements, ReadValue, ReadToken, Blank, Spell, Legal, Means;
    var tail := [mark] + next;
    ItemReads(i, tail, Null, errors, readable);
    TokenBehind(i.after, tail);
    Punctuation(mark, next);
    hide SpellItem;
    ElementsStep(SpellItem(i) + tail, done, Means(i.tree, readable), i.after + tail, errors, readable);
  }

  lemma {:induction false} ItemsRead(items: Items, done: seq<JsonValue>, rest: Bytes, errors: seq<Error>,
                                     readable: Bytes -> bool)
    requires LegalItems(items, readable)
    ensures ReadElements(SpellItems(items) + rest, done, errors, readable)
         == Outcome(true, Array(done + ItemsMean(items, readable)), rest, errors)
    decreases items, 0
  {
    hide ReadElements, Blank, Spell, Legal, Means, SpellItem;
    var i := items.item;
    match items
    case LastItem(_) =>
      ElementReads(i, done, 0x5D, rest, errors, readable);
      assert SpellItems(items) + rest == SpellItem(i) + ([0x5D] + rest);
    case MoreItems(_, more) =>
      var next := SpellItems(more) + rest;
      ElementReads(i, done, 0x2C, next, errors, readable);
      var v := Means(i.tree, readable);
      ItemsRead(more, done + [v], rest, errors, readable);
      assert SpellItems(items) + rest == SpellItem(i) + ([0x2C] + next);
      assert done + [v] + ItemsMean(more, readable) == done + ([v] + ItemsMean(more, readable));
  }

  /** A name, a colon and a value, whatever was read before. */
  lemma {:induction false} EntryReads(e: Entry, members: seq<Member>, name: Bytes, rest: Bytes, errors: seq<Error>,
                                      readable: Bytes -> bool)
    requires LegalName(e) && Padded(e.value) && Legal(e.value.tree, readable) && Closes(rest)
    ensures var l := ReadToken(rest);
            var members' := Insert(members, TextMeans(e.name), Means(e.value.tree, readable));
            && (l.token.kind == ObjectEnd ==>
                  ReadMembers(SpellEntry(e) + rest, members, name, errors, readable)
                  == Outcome(true, Object(members'), l.rest, errors))
            && (l.token.kind == ArraySeparator ==>
                  ReadMembers(SpellEntry(e) + rest, members, name, errors, readable)
                  == ReadMembers(l.rest, members', TextMeans(e.name), errors, readable))
    decreases e.value.tree, 2
  {
    hide ReadMembers, ReadValue, ReadToken, Blank, Closes, LegalText, SpellName, TextMeans, StringOf, Spell, Legal,
         Means, Insert, Lookup;
    var value := SpellItem(e.value) + rest;
    var colon := [0x3A] + value;
    var named := SpellName(e.name) + (e.between + colon);
    assert SpellEntry(e) + rest == e.before + named by { hide SpellItem; }
    TokenBehind(e.before, named);
    NameToken(e.name, e.between + colon);
    TokenBehind(e.between, colon);
    Punctuation(0x3A, value);
    ItemReads(e.value, rest, Lookup(members, TextMeans(e.name)), errors, readable);
    TokenBehind(e.value.after, rest);
    hide SpellItem, SpellEntry;
    MembersStep(e.before + named, members, name, TextMeans(e.name), Means(e.value.tree, readable),
                e.value.after + rest, errors, readable);
  }

  lemma {:induction false} EntriesRead(entries: Entries, members: seq<Member>, name: Bytes, rest: Bytes,
                                       errors: seq<Error>, readable: Bytes -> bool)
    requires LegalEntries(entries, readable)
    ensures ReadMembers(SpellEntries(entries) + rest, members, name, errors, readable)
         == Outcome(true, Object(Settled(members, entries, readable)), rest, errors)
    decreases entries, 0
  {
    hide ReadMembers, ReadToken, Blank, Spell, Legal, Means, LegalText, TextMeans, SpellEntry, Insert;
    var e := entries.entry;
    match entries
    case LastEntry(_, tail) =>
      if tail.None? {
        EntryReads(e, members, name, [0x7D] + rest, errors, readable);
        Punctuation(0x7D, rest);
        assert SpellEntries(entries) + rest == SpellEntry(e) + ([0x7D] + rest);
      } else {
        var closing := tail.value + ([0x7D] + rest);
        EntryReads(e, members, name, [0x2C] + closing, errors, readable);
        Punctuation(0x2C, closing);
        TokenBehind(tail.value, [0x7D] + rest);
        Punctuation(0x7D, rest);
        ClosesAtOnce(closing, Insert(members, TextMeans(e.name), Means(e.value.tree, readable)), errors, readable);
        assert SpellEntries(entries) + rest == SpellEntry(e) + ([0x2C] + closing);
      }
    case MoreEntries(_, more) =>
      var next := SpellEntries(more) + rest;
      EntryReads(e, members, name, [0x2C] + next, errors, readable);
      Punctuation(0x2C, next);
      EntriesRead(more, Insert(members, TextMeans(e.name), Means(e.value.tree, readable)), TextMeans(e.name), rest,
                  errors, readable);
      assert SpellEntries(entries) + rest == SpellEntry(e) + ([0x2C] + next);
  }

  lemma ClosesAtOnce(s: Bytes, members: seq<Member>, errors: seq<Error>, readable: Bytes -> bool)
    requires ReadToken(s).token.kind == ObjectEnd
    ensures ReadMembers(s, members, [], errors, readable) == Outcome(true, Object(members), ReadToken(s).rest, errors)
  {
    hide ReadToken, ReadMember;
  }

  // ----- whatever is read is a text of the grammar

  lemma {:induction false} SkipFrom(s: Bytes) returns (b: Bytes)
    ensures Blank(b) && s == b + SkipSpaces(s)
  {
    if s != [] && IsSpace(s[0]) {
      SpaceIs(s[0]);
      var more := SkipFrom(s[1..]);
      b := [s[0]] + more;
      assert s == [s[0]] + s[1..];
    } else {
      b := [];
    }
  }

  lemma TokenFrom(s: Bytes) returns (b: Bytes)
    requires ReadToken(s).token.kind != EndOfStream
    ensures var l := ReadToken(s);
            && Blank(b) && s == b + l.token.text + l.rest
            && l.token.text != [] && Front(l.token.text + l.rest) == (l.token.kind, |l.token.text|)
  {
    b := SkipFrom(s);
    hide Front, SkipSpaces, Blank;
    var t := SkipSpaces(s);
    var n := Front(t).1;
    assert t == t[..n] + t[n..];
  }

  lemma PunctuationFrom(t: Bytes)
    requires t != []
    ensures Front(t).0 in {ObjectBegin, ObjectEnd, ArrayBegin, ArrayEnd, ArraySeparator, MemberSeparator} ==>
              Front(t).1 == 1
    ensures Front(t).0 == ObjectBegin ==> t[0] == 0x7B
    ensures Front(t).0 == ObjectEnd ==> t[0] == 0x7D
    ensures Front(t).0 == ArrayBegin ==> t[0] == 0x5B
    ensures Front(t).0 == ArrayEnd ==> t[0] == 0x5D
    ensures Front(t).0 == ArraySeparator ==> t[0] == 0x2C
    ensures Front(t).0 == MemberSeparator ==> t[0] == 0x3A
  {
    hide NumberTail, JsonStrings.ScanString;
  }

  lemma KeywordFrom(t: Bytes)
    requires t != []
    ensures Front(t).0 == NullToken ==> t[..Front(t).1] == NULL_TEXT
    ensures Front(t).0 == TrueToken ==> t[..Front(t).1] == TRUE_TEXT
    ensures Front(t).0 == FalseToken ==> t[..Front(t).1] == FALSE_TEXT
  {
    hide NumberTail, JsonStrings.ScanString;
  }

  /** The text of a punctuation token. */
  lemma MarkFrom(s: Bytes) returns (b: Bytes)
    requires ReadToken(s).token.kind
          in {ObjectBegin, ObjectEnd, ArrayBegin, ArrayEnd, ArraySeparator, MemberSeparator}
    ensures var l := ReadToken(s);
            Blank(b) && s == b + [match l.token.kind
                                  case ObjectBegin => 0x7B
                                  case ObjectEnd => 0x7D
                                  case ArrayBegin => 0x5B
                                  case ArrayEnd => 0x5D
                                  case ArraySeparator => 0x2C
                                  case _ => 0x3A] + l.rest
  {
    b := TokenFrom(s);
    var l := ReadToken(s);
    PunctuationFrom(l.token.text + l.rest);
    hide ReadToken, Front, Blank;
    assert (l.token.text + l.rest)[0] == l.token.text[0] && l.token.text == [l.token.text[0]];
  }

  lemma {:induction false} ScanPrefix(u: Bytes)
    requires JsonStrings.ScanString(u).0
    ensures JsonStrings.ScanString(u[..JsonStrings.ScanString(u).1]) == JsonStrings.ScanString(u)
  {
    var n := JsonStrings.ScanString(u).1;
    if u[0] == JsonStrings.BACKSLASH {
      ScanPrefix(u[2..]);
      assert u[..n][2..] == u[2..][..n - 2];
    } else if u[0] != JsonStrings.QUOTE {
      ScanPrefix(u[1..]);
      assert u[..n][1..] == u[1..][..n - 1];
    }
  }

  lemma ScannedFrom(t: Bytes)
    requires t != [] && Front(t).0 == StringToken
    ensures var n := Front(t).1;
            && n >= 2 && t[0] == 0x22 && t[n - 1] == 0x22
            && JsonStrings.ScanString(t[1..n - 1] + [0x22]) == (true, n - 1)
  {
    hide NumberTail, JsonStrings.ScanString;
    var n := Front(t).1;
    assert t[0] == 0x22 && JsonStrings.ScanString(t[1..]) == (true, n - 1);
    ScanPrefix(t[1..]);
    ScanQuoted(t[1..]);
    assert t[1..][..n - 1] == t[1..n - 1] + [0x22];
  }

  lemma ScanQuoted(u: Bytes)
    requires JsonStrings.ScanString(u).0
    ensures var n := JsonStrings.ScanString(u).1; n >= 1 && u[n - 1] == 0x22
  {
  }

  lemma NameFrom(s: Bytes) returns (cs: seq<Char>)
    requires ReadToken(s).token.kind == StringToken && StringOf(ReadToken(s).token.text).Text?
    ensures LegalText(cs) && ReadToken(s).token.text == SpellName(cs)
    ensures StringOf(ReadToken(s).token.text) == JsonStrings.Text(TextMeans(cs))
  {
    hide Front, JsonStrings.ScanString, JsonStrings.DecodeText, LegalText, TextMeans, SpellText;
    var t := SkipSpaces(s);
    var text := ReadToken(s).token.text;
    ScannedFrom(t);
    var n := Front(t).1;
    var inner := t[1..n - 1];
    assert text == t[..n] && text[1..|text| - 1] == inner;
    cs := TextFrom(inner);
    assert text == [0x22] + inner + [0x22];
  }

  lemma NumeralFrom(s: Bytes) returns (n: Number)
    requires ReadToken(s).token.kind == JsonParsing.NumberToken
    ensures LegalNumber(n) && ReadToken(s).token.text == SpellNumber(n)
  {
    var t := SkipSpaces(s);
    assert JsonNumbers.IsDigit(t[0]) || t[0] == JsonNumbers.MINUS by { hide NumberTail, JsonStrings.ScanString; }
    n := NumberFrom(t);
    hide NumberTail, JsonStrings.ScanString, SpellNumber, LegalNumber;
  }

  /** A value that is read successfully is spelled behind blanks, and followed by what is left. */
  ghost predicate SpelledAs(s: Bytes, b: Bytes, t: Tree, r: Outcome, errors: seq<Error>, readable: Bytes -> bool) {
    && Blank(b) && Legal(t, readable) && s == b + Spell(t) + r.rest
    && r.value == Means(t, readable) && r.errors == errors
  }

  lemma NumberValueIs(s: Bytes, current: JsonValue, errors: seq<Error>, readable: Bytes -> bool, n: Number)
    requires ReadToken(s).token.kind == JsonParsing.NumberToken && ReadToken(s).token.text == SpellNumber(n)
    requires LegalNumber(n) && ReadValue(s, current, errors, readable).ok
    ensures var r := ReadValue(s, current, errors, readable);
            && r.rest == ReadToken(s).rest && r.errors == errors
            && Legal(NumberTree(n), readable) && r.value == Means(NumberTree(n), readable)
  {
    NumberDecodes(n);
    hide ReadToken, SpellNumber, LegalNumber, AsInteger, JsonNumbers.DecodeNumber, ReadMembers, ReadArray, StringValue;
  }

  lemma NumberValueFrom(s: Bytes, current: JsonValue, errors: seq<Error>, readable: Bytes -> bool)
    returns (b: Bytes, t: Tree)
    requires ReadToken(s).token.kind == JsonParsing.NumberToken
    requires ReadValue(s, current, errors, readable).ok
    ensures SpelledAs(s, b, t, ReadValue(s, current, errors, readable), errors, readable)
  {
    hide ReadToken, ReadValue, SpellNumber, LegalNumber, Front, Blank, Legal, Means;
    b := TokenFrom(s);
    var n := NumeralFrom(s);
    t := NumberTree(n);
    NumberValueIs(s, current, errors, readable, n);
  }

  lemma StringValueFrom(s: Bytes, current: JsonValue, errors: seq<Error>, readable: Bytes -> bool)
    returns (b: Bytes, t: Tree)
    requires ReadToken(s).token.kind == StringToken && ReadValue(s, current, errors, readable).ok
    ensures SpelledAs(s, b, t, ReadValue(s, current, errors, readable), errors, readable)
  {
    hide ReadToken, ReadMembers, ReadArray, NumberValue, Front, Blank, StringOf, SpellName, LegalText, TextMeans;
    b := TokenFrom(s);
    var cs := NameFrom(s);
    t := StringTree(cs);
  }

  lemma KeywordValueFrom(s: Bytes, current: JsonValue, errors: seq<Error>, readable: Bytes -> bool)
    returns (b: Bytes, t: Tree)
    requires ReadToken(s).token.kind in {TrueToken, FalseToken, NullToken}
    ensures SpelledAs(s, b, t, ReadValue(s, current, errors, readable), errors, readable)
  {
    hide ReadToken, ReadMembers, ReadArray, NumberValue, StringValue, Front, Blank;
    b := TokenFrom(s);
    var l := ReadToken(s);
    KeywordFrom(l.token.text + l.rest);
    assert (l.token.text + l.rest)[..|l.token.text|] == l.token.text;
    t := if l.token.kind == TrueToken then TrueTree else if l.token.kind == FalseToken then FalseTree else NullTree;
  }

  lemma {:induction false} ValueFrom(s: Bytes, current: JsonValue, errors: seq<Error>, readable: Bytes -> bool)
    returns (b: Bytes, t: Tree)
    requires ReadValue(s, current, errors, readable).ok
    ensures SpelledAs(s, b, t, ReadValue(s, current, errors, readable), errors, readable)
    decreases |s|, 2
  {
    hide ReadValue, SpelledAs;
    var kind := ReadToken(s).token.kind;
    ValueKinds(s, current, errors, readable);
    hide ReadToken;
    match kind
    case NumberToken => b, t := NumberValueFrom(s, current, errors, readable);
    case StringToken => b, t := StringValueFrom(s, current, errors, readable);
    case ArrayBegin => b, t := ArrayFrom(s, current, errors, readable);
    case ObjectBegin => b, t := ObjectFrom(s, current, errors, readable);
    case _ => b, t := KeywordValueFrom(s, current, errors, readable);
  }

  lemma ValueKinds(s: Bytes, current: JsonValue, errors: seq<Error>, readable: Bytes -> bool)
    requires ReadValue(s, current, errors, readable).ok
    ensures ReadToken(s).token.kind in
              {ObjectBegin, ArrayBegin, JsonParsing.NumberToken, StringToken, TrueToken, FalseToken, NullToken}
  {
    hide ReadToken, ReadMembers, ReadArray, NumberValue, StringValue;
  }

  lemma {:induction false} ArrayFrom(s: Bytes, current: JsonValue, errors: seq<Error>, readable: Bytes -> bool)
    returns (b: Bytes, t: Tree)
    requires ReadToken(s).token.kind == ArrayBegin && ReadValue(s, current, errors, readable).ok
    ensures SpelledAs(s, b, t, ReadValue(s, current, errors, readable), errors, readable)
    decreases |s|, 1
  {
    b := MarkFrom(s);
    TokenShrinks(s);
    var inside := ReadToken(s).rest;
    ArrayIs(s, current, errors, readable);
    var blank := SkipFrom(inside);
    var rest := SkipSpaces(inside);
    hide ReadToken, ReadValue, ReadElements, Blank, SkipSpaces, SpelledAs, LegalItems, SpellItems;
    if rest != [] && rest[0] == 0x5D {
      t := EmptyArray(blank);
      assert rest == [0x5D] + rest[1..];
      EmptyArraySpelled(s, b, blank, Outcome(true, Array([]), rest[1..], errors), errors, readable);
    } else {
      var items := ItemsFrom(inside, [], errors, readable);
      t := ArrayTree(items);
      ArraySpelled(s, b, items, ReadElements(inside, [], errors, readable), errors, readable);
    }
  }

  lemma EmptyArraySpelled(s: Bytes, b: Bytes, blank: Bytes, r: Outcome, errors: seq<Error>, readable: Bytes -> bool)
    requires Blank(b) && Blank(blank) && s == b + [0x5B] + (blank + ([0x5D] + r.rest))
    requires r.value == Array([]) && r.errors == errors
    ensures SpelledAs(s, b, EmptyArray(blank), r, errors, readable)
  {
    hide Blank;
    assert s == b + ([0x5B] + blank + [0x5D]) + r.rest;
  }

  lemma ArraySpelled(s: Bytes, b: Bytes, items: Items, r: Outcome, errors: seq<Error>, readable: Bytes -> bool)
    requires Blank(b) && LegalItems(items, readable) && s == b + [0x5B] + (SpellItems(items) + r.rest)
    requires r.value == Array([] + ItemsMean(items, readable)) && r.errors == errors
    ensures SpelledAs(s, b, ArrayTree(items), r, errors, readable)
  {
    hide Blank, LegalItems, SpellItems, ItemsMean;
    assert [] + ItemsMean(items, readable) == ItemsMean(items, readable);
    assert s == b + ([0x5B] + SpellItems(items)) + r.rest;
  }

  lemma EmptyObjectSpelled(s: Bytes, b: Bytes, blank: Bytes, r: Outcome, errors: seq<Error>, readable: Bytes -> bool)
    requires Blank(b) && Blank(blank) && s == b + [0x7B] + (blank + [0x7D] + r.rest)
    requires r.value == Object([]) && r.errors == errors
    ensures SpelledAs(s, b, EmptyObject(blank), r, errors, readable)
  {
    hide Blank;
    assert s == b + ([0x7B] + blank + [0x7D]) + r.rest;
  }

  lemma ObjectSpelled(s: Bytes, b: Bytes, entries: Entries, r: Outcome, errors: seq<Error>, readable: Bytes -> bool)
    requires Blank(b) && LegalEntries(entries, readable) && s == b + [0x7B] + (SpellEntries(entries) + r.rest)
    requires r.value == Object(Settled([], entries, readable)) && r.errors == errors
    ensures SpelledAs(s, b, ObjectTree(entries), r, errors, readable)
  {
    hide Blank, LegalEntries, SpellEntries, Settled;
    assert s == b + ([0x7B] + SpellEntries(entries)) + r.rest;
  }

  /** What becomes of an array behind its bracket. */
  lemma ArrayIs(s: Bytes, current: JsonValue, errors: seq<Error>, readable: Bytes -> bool)
    requires ReadToken(s).token.kind == ArrayBegin
    ensures var inside := ReadToken(s).rest;
            var rest := SkipSpaces(inside);
            ReadValue(s, current, errors, readable)
            == if rest != [] && rest[0] == 0x5D then Outcome(true, Array([]), rest[1..], errors)
               else ReadElements(inside, [], errors, readable)
  {
    hide ReadElements, SkipSpaces;
    var inside := ReadToken(s).rest;
    assert ReadValue(s, current, errors, readable) == ReadArray(inside, errors, readable) by {
      hide ReadToken, ReadArray;
    }
    hide ReadToken, ReadValue;
    JsonRoundTrip.ElementsBehindBlanks(inside, [], errors, readable);
  }

  lemma {:induction false} ItemsFrom(s: Bytes, done: seq<JsonValue>, errors: seq<Error>, readable: Bytes -> bool)
    returns (items: Items)
    requires ReadElements(s, done, errors, readable).ok
    ensures var r := ReadElements(s, done, errors, readable);
            && LegalItems(items, readable) && s == SpellItems(items) + r.rest
            && r.value == Array(done + ItemsMean(items, readable)) && r.errors == errors
    decreases |s|, 3
  {
    hide ReadToken, ReadValue, Recover, Blank, Spell, Legal, Means;
    var item := ReadValue(s, Null, errors, readable);
    var b, t := ValueFrom(s, Null, errors, readable);
    var l := ReadToken(item.rest);
    var after := MarkFrom(item.rest);
    var i := Item(b, t, after);
    var v := Means(t, readable);
    if l.token.kind == ArrayEnd {
      items := LastItem(i);
      assert s == SpellItems(items) + l.rest;
    } else {
      TokenShrinks(item.rest);
      var more := ItemsFrom(l.rest, done + [v], errors, readable);
      items := MoreItems(i, more);
      hide ReadElements;
      assert s == SpellItems(items) + ReadElements(l.rest, done + [v], errors, readable).rest;
      assert done + [v] + ItemsMean(more, readable) == done + ([v] + ItemsMean(more, readable));
    }
  }

  lemma TokenShrinks(s: Bytes)
    ensures ReadToken(s).token.kind != EndOfStream ==> |ReadToken(s).rest| < |s|
  {
  }

  lemma {:induction false} ObjectFrom(s: Bytes, current: JsonValue, errors: seq<Error>, readable: Bytes -> bool)
    returns (b: Bytes, t: Tree)
    requires ReadToken(s).token.kind == ObjectBegin && ReadValue(s, current, errors, readable).ok
    ensures SpelledAs(s, b, t, ReadValue(s, current, errors, readable), errors, readable)
    decreases |s|, 1
  {
    b := MarkFrom(s);
    TokenShrinks(s);
    JsonRoundTrip.ObjectStarts(s, current, errors, readable);
    hide ReadToken, ReadValue, ReadMembers, Blank, SpellEntries, LegalEntries, Settled;
    var inside := ReadToken(s).rest;
    var r := ReadMembers(inside, [], [], errors, readable);
    var blank, entries := MembersFrom(inside, [], [], errors, readable);
    hide SpelledAs;
    if entries.None? {
      t := EmptyObject(blank);
      EmptyObjectSpelled(s, b, blank, r, errors, readable);
    } else {
      t := ObjectTree(entries.value);
      ObjectSpelled(s, b, entries.value, r, errors, readable);
    }
  }

  /** What the loop over the members took in: nothing but a closing brace, if the name read last
      is empty, or entries. */
  ghost predicate MembersSpelled(s: Bytes, members: seq<Member>, name: Bytes, blank: Bytes, entries: Option<Entries>,
                                 r: Outcome, errors: seq<Error>, readable: Bytes -> bool) {
    && r.errors == errors
    && if entries.None? then
         name == [] && Blank(blank) && s == blank + [0x7D] + r.rest && r.value == Object(members)
       else
         && LegalEntries(entries.value, readable) && s == SpellEntries(entries.value) + r.rest
         && r.value == Object(Settled(members, entries.value, readable))
  }

  lemma {:induction false} MembersFrom(s: Bytes, members: seq<Member>, name: Bytes, errors: seq<Error>,
                                       readable: Bytes -> bool)
    returns (blank: Bytes, entries: Option<Entries>)
    requires ReadMembers(s, members, name, errors, readable).ok
    ensures MembersSpelled(s, members, name, blank, entries, ReadMembers(s, members, name, errors, readable), errors,
                           readable)
    decreases |s|, 3
  {
    blank, entries := [], None;
    var l := ReadToken(s);
    if l.token.kind == ObjectEnd && name == [] {
      blank := MarkFrom(s);
      hide ReadToken, Blank, ReadMember;
    } else {
      MembersAre(s, members, name, errors, readable);
      var b := TokenFrom(s);
      var cs := NameFrom(s);
      TokenShrinks(s);
      hide ReadToken, Front, ReadMembers, ReadMember, StringOf, LegalText, TextMeans, SpellName, Blank, SpellEntries,
           LegalEntries, Settled;
      var es := MemberFrom(l.rest, members, b, cs, errors, readable);
      entries := Some(es);
      assert s == SpellEntries(es) + ReadMember(l.rest, members, TextMeans(cs), errors, readable).rest by {
        assert s == (b + SpellName(cs)) + l.rest;
      }
    }
  }

  lemma MembersAre(s: Bytes, members: seq<Member>, name: Bytes, errors: seq<Error>, readable: Bytes -> bool)
    requires ReadMembers(s, members, name, errors, readable).ok
    requires !(ReadToken(s).token.kind == ObjectEnd && name == [])
    ensures var l := ReadToken(s);
            && l.token.kind == StringToken && StringOf(l.token.text).Text?
            && ReadMembers(s, members, name, errors, readable)
               == ReadMember(l.rest, members, StringOf(l.token.text).text, errors, readable)
  {
    hide ReadToken, ReadMember, StringOf, Recover;
  }

  /** The rest of a member behind its name, with the members that follow. */
  lemma {:induction false} MemberFrom(s: Bytes, members: seq<Member>, before: Bytes, cs: seq<Char>,
                                      errors: seq<Error>, readable: Bytes -> bool)
    returns (entries: Entries)
    requires LegalText(cs) && Blank(before)
    requires ReadMember(s, members, TextMeans(cs), errors, readable).ok
    ensures var r := ReadMember(s, members, TextMeans(cs), errors, readable);
            && LegalEntries(entries, readable) && before + SpellName(cs) + s == SpellEntries(entries) + r.rest
            && r.value == Object(Settled(members, entries, readable)) && r.errors == errors
    decreases |s|, 4
  {
    hide ReadMember, ReadMembers, Insert, LegalText, TextMeans, SpellName, SpellEntry, Blank, Legal, Means, LegalName,
         Padded;
    var e, ended, rest := MemberParts(s, members, before, cs, errors, readable);
    var members' := Insert(members, TextMeans(cs), Means(e.value.tree, readable));
    if ended {
      entries := LastEntry(e, None);
      LastSpelled(e, rest);
    } else {
      var blank, more := MembersFrom(rest, members', TextMeans(cs), errors, readable);
      entries := Continued(e, blank, more);
      var r := ReadMembers(rest, members', TextMeans(cs), errors, readable);
      ContinuedSpelled(e, blank, more, members, rest, r, errors, readable);
    }
  }

  /** One member: whether a brace ends the object behind it, and what is left then. */
  lemma {:induction false} MemberParts(s: Bytes, members: seq<Member>, before: Bytes, cs: seq<Char>,
                                       errors: seq<Error>, readable: Bytes -> bool)
    returns (e: Entry, ended: bool, rest: Bytes)
    requires LegalText(cs) && Blank(before)
    requires ReadMember(s, members, TextMeans(cs), errors, readable).ok
    ensures e.name == cs && LegalName(e) && Padded(e.value) && Legal(e.value.tree, readable)
    ensures before + SpellName(cs) + s == SpellEntry(e) + ([if ended then 0x7D else 0x2C] + rest) && |rest| < |s|
    ensures var members' := Insert(members, TextMeans(cs), Means(e.value.tree, readable));
            ReadMember(s, members, TextMeans(cs), errors, readable)
            == if ended then Outcome(true, Object(members'), rest, errors)
               else ReadMembers(rest, members', TextMeans(cs), errors, readable)
    decreases |s|, 3
  {
    hide ReadToken, ReadValue, ReadMember, ReadMembers, Insert, Lookup, LegalText, TextMeans, SpellName, SpellEntry,
         Blank, SpelledAs, LegalName, Padded, Legal;
    var name := TextMeans(cs);
    var colon := ReadToken(s);
    MemberIs(s, members, name, errors, readable);
    TokenShrinks(s);
    var b, t := ValueFrom(colon.rest, Lookup(members, name), errors, readable);
    var item := ReadValue(colon.rest, Lookup(members, name), errors, readable);
    TokenShrinks(item.rest);
    ended, rest := ReadToken(item.rest).token.kind == ObjectEnd, ReadToken(item.rest).rest;
    e := MemberSpelled(s, before, cs, b, t, item, errors, readable);
  }

  lemma MemberSpelled(s: Bytes, before: Bytes, cs: seq<Char>, b: Bytes, t: Tree, item: Outcome, errors: seq<Error>,
                      readable: Bytes -> bool)
    returns (e: Entry)
    requires LegalText(cs) && Blank(before) && ReadToken(s).token.kind == MemberSeparator
    requires SpelledAs(ReadToken(s).rest, b, t, item, errors, readable)
    requires ReadToken(item.rest).token.kind in {ObjectEnd, ArraySeparator}
    ensures e.name == cs && e.value.tree == t && LegalName(e) && Padded(e.value)
    ensures Legal(t, readable) && item.value == Means(t, readable) && item.errors == errors
      && |item.rest| <= |ReadToken(s).rest|
    ensures var l := ReadToken(item.rest);
            before + SpellName(cs) + s == SpellEntry(e) + ([if l.token.kind == ObjectEnd then 0x7D else 0x2C] + l.rest)
  {
    hide ReadToken, LegalText, SpellName, SpellEntry, Blank, Spell, Legal, Means;
    var between := MarkFrom(s);
    var after := MarkFrom(item.rest);
    var l := ReadToken(item.rest);
    e := Entry(before, cs, between, Item(b, t, after));
    var rest := [if l.token.kind == ObjectEnd then 0x7D else 0x2C] + l.rest;
    assert item.rest == after + rest;
    EntrySpelled(before, cs, s, between, ReadToken(s).rest, b, t, item.rest, after, rest);
  }

  lemma EntrySpelled(before: Bytes, cs: seq<Char>, s: Bytes, between: Bytes, value: Bytes, b: Bytes, t: Tree,
                     left: Bytes, after: Bytes, rest: Bytes)
    requires s == between + [0x3A] + value && value == b + Spell(t) + left && left == after + rest
    ensures before + SpellName(cs) + s == SpellEntry(Entry(before, cs, between, Item(b, t, after))) + rest
  {
    hide SpellName, Spell;
    var item := b + Spell(t) + after;
    assert value == item + rest;
    var front := before + SpellName(cs) + between + [0x3A];
    assert before + SpellName(cs) + s == front + value;
    assert front + (item + rest) == front + item + rest;
  }

  lemma LastSpelled(e: Entry, rest: Bytes)
    ensures SpellEntries(LastEntry(e, None)) + rest == SpellEntry(e) + ([0x7D] + rest)
  {
    hide SpellEntry;
  }

  /** The entry and what the loop took in behind its comma. */
  function Continued(e: Entry, blank: Bytes, more: Option<Entries>): Entries {
    if more.None? then LastEntry(e, Some(blank)) else MoreEntries(e, more.value)
  }

  lemma ContinuedSpelled(e: Entry, blank: Bytes, more: Option<Entries>, members: seq<Member>, s: Bytes, r: Outcome,
                         errors: seq<Error>, readable: Bytes -> bool)
    requires LegalName(e) && Padded(e.value) && Legal(e.value.tree, readable)
    requires var members' := Insert(members, TextMeans(e.name), Means(e.value.tree, readable));
             MembersSpelled(s, members', TextMeans(e.name), blank, more, r, errors, readable)
    ensures LegalEntries(Continued(e, blank, more), readable)
    ensures SpellEntries(Continued(e, blank, more)) + r.rest == SpellEntry(e) + ([0x2C] + s)
    ensures r.value == Object(Settled(members, Continued(e, blank, more), readable)) && r.errors == errors
  {
    hide SpellEntry, Blank, LegalText, TextMeans, Legal, Means, Insert, Spell;
    if more.None? {
      assert SpellEntry(e) + ([0x2C] + blank) + [0x7D] + r.rest == SpellEntry(e) + ([0x2C] + (blank + [0x7D] + r.rest));
    } else {
      assert SpellEntry(e) + [0x2C] + SpellEntries(more.value) + r.rest
          == SpellEntry(e) + ([0x2C] + (SpellEntries(more.value) + r.rest));
    }
  }

  lemma MemberIs(s: Bytes, members: seq<Member>, name: Bytes, errors: seq<Error>, readable: Bytes -> bool)
    requires ReadMember(s, members, name, errors, readable).ok
    ensures var colon := ReadToken(s);
            && colon.token.kind == MemberSeparator
            && var item := ReadValue(colon.rest, Lookup(members, name), errors, readable);
            && item.ok
            && var comma := ReadToken(item.rest);
               var members' := Insert(members, name, item.value);
            && comma.token.kind in {ObjectEnd, ArraySeparator}
            && ReadMember(s, members, name, errors, readable)
               == if comma.token.kind == ObjectEnd then Outcome(true, Object(members'), comma.rest, item.errors)
                  else ReadMembers(comma.rest, members', name, item.errors, readable)
  {
    hide ReadToken, ReadValue, ReadMembers, Recover, Insert, Lookup;
  }

  // ----- documents

  lemma {:induction false} AllBlank(s: Bytes)
    requires SkipSpaces(s) == []
    ensures Blank(s)
  {
    if s != [] {
      SpaceIs(s[0]);
      AllBlank(s[1..]);
    }
  }

  lemma BlankEnds(b: Bytes)
    requires Blank(b)
    ensures SkipSpaces(b) == []
  {
    TokenBehind(b, []);
    assert b + [] == b;
  }

  /** A text of the grammar is read successfully, and as what it means. */
  lemma TextIsRead(i: Item, document: Bytes, root: JsonValue, readable: Bytes -> bool)
    requires IsTextOf(i, document, readable)
    ensures Parse(document, root, readable) == (true, Means(i.tree, readable))
  {
    ItemReads(i, [], root, [], readable);
    assert SpellItem(i) + [] == document && i.after + [] == i.after;
    BlankEnds(i.after);
    hide ReadValue, Means, Spell, Legal, Blank, SkipSpaces;
  }

  /** What is read successfully is a text of the grammar. */
  lemma ReadIsText(document: Bytes, root: JsonValue, readable: Bytes -> bool) returns (i: Item)
    requires Parse(document, root, readable).0
    ensures IsTextOf(i, document, readable)
  {
    hide ReadValue, Spell, Legal, Means;
    var r := ReadValue(document, root, [], readable);
    var b, t := ValueFrom(document, root, [], readable);
    AllBlank(r.rest);
    i := Item(b, t, r.rest);
  }

  /** For every document and whatever the tree was before: parsing succeeds if and only if the
      document is a text of the grammar, and then it yields what the text means. */
  lemma ParseIsGrammar(document: Bytes, root: JsonValue, readable: Bytes -> bool)
    ensures Parse(document, root, readable).0 <==> exists i :: IsTextOf(i, document, readable)
    ensures forall i :: IsTextOf(i, document, readable) ==>
              Parse(document, root, readable) == (true, Means(i.tree, readable))
  {
    hide Parse, Means, Legal, Spell;
    forall i | IsTextOf(i, document, readable)
      ensures Parse(document, root, readable) == (true, Means(i.tree, readable))
    {
      TextIsRead(i, document, root, readable);
    }
    if Parse(document, root, readable).0 {
      var i := ReadIsText(document, root, readable);
    }
  }
}
