/** The texts of values, as a grammar: concrete syntax trees, how each is spelled and what it
    means. It follows RFC 8259 but for what src/common/json.cpp accepts beyond it. */
module JsonGrammar {
  import opened Bytes
  import opened Options
  import opened JsonValues
  import opened Numerals
  import Utf8

  predicate Blank(b: Bytes) {
    forall i :: 0 <= i < |b| ==> b[i] as char in {' ', '\t', '\r', '\n'}
  }

  // ----- strings

  /** A character of a string: itself, a short escape, or one or two escaped code units. */
  datatype Char =
    | Raw(c: Byte)
    | Short(letter: Byte)
    | Unit(hex: Bytes)
    | Surrogates(high: Bytes, low: Bytes)

  predicate IsHex(c: Byte) {
    var ch := c as char;
    '0' <= ch <= '9' || 'a' <= ch <= 'f' || 'A' <= ch <= 'F'
  }

  function HexOf(c: Byte): (n: nat)
    requires IsHex(c)
    ensures n < 16
  {
    var ch := c as char;
    if ch <= '9' then ch as nat - '0' as nat
    else if ch <= 'F' then 10 + (ch as nat - 'A' as nat)
    else 10 + (ch as nat - 'a' as nat)
  }

  predicate FourHex(h: Bytes) {
    |h| == 4 && forall i :: 0 <= i < 4 ==> IsHex(h[i])
  }

  function CodeUnit(h: Bytes): (n: nat)
    requires FourHex(h)
    ensures n < 0x1_0000
  {
    HexOf(h[0]) * 0x1000 + HexOf(h[1]) * 0x100 + HexOf(h[2]) * 0x10 + HexOf(h[3])
  }

  predicate IsHigh(unit: nat) {
    0xD800 <= unit < 0xDC00
  }

  /** Every byte but the quote and the backslash may stand for itself, control characters and
      bytes that are no UTF-8 as well. A high surrogate takes the next unit for its low one,
      whatever that is; a low surrogate alone passes. */
  predicate LegalChar(c: Char) {
    match c
    case Raw(b) => b as char !in {'"', '\\'}
    case Short(letter) => letter as char in {'"', '\\', '/', 'b', 'f', 'n', 'r', 't'}
    case Unit(hex) => FourHex(hex) && !IsHigh(CodeUnit(hex))
    case Surrogates(high, low) => FourHex(high) && FourHex(low) && IsHigh(CodeUnit(high))
  }

  function SpellChar(c: Char): Bytes {
    match c
    case Raw(b) => [b]
    case Short(letter) => [0x5C, letter]
    case Unit(hex) => [0x5C, 0x75] + hex
    case Surrogates(high, low) => [0x5C, 0x75] + high + [0x5C, 0x75] + low
  }

  function CharMeans(c: Char): Bytes
    requires LegalChar(c)
  {
    match c
    case Raw(b) => [b]
    case Short(letter) =>
      var l := letter as char;
      [(if l == 'b' then '\U{8}' else if l == 'f' then '\U{C}' else if l == 'n' then '\n'
        else if l == 'r' then '\r' else if l == 't' then '\t' else l) as int as Byte]
    case Unit(hex) => Utf8.Encode(CodeUnit(hex))
    case Surrogates(high, low) =>
      Utf8.Encode(0x1_0000 + (CodeUnit(high) - 0xD800) * 0x400 + CodeUnit(low) % 0x400)
  }

  predicate LegalText(cs: seq<Char>) {
    forall i :: 0 <= i < |cs| ==> LegalChar(cs[i])
  }

  function SpellText(cs: seq<Char>): Bytes {
    if cs == [] then [] else SpellChar(cs[0]) + SpellText(cs[1..])
  }

  function TextMeans(cs: seq<Char>): Bytes
    requires LegalText(cs)
  {
    if cs == [] then [] else CharMeans(cs[0]) + TextMeans(cs[1..])
  }

  // ----- numbers

  datatype Exponent = Exponent(letter: Byte, sign: Option<Byte>, digits: Bytes)

  datatype Number = Number(minus: bool, whole: Bytes, fraction: Option<Bytes>, exponent: Option<Exponent>)

  /** Digits may be written with leading zeros, or be missing, except that a number without a sign
      starts with one. */
  predicate LegalNumber(n: Number) {
    && AllDigits(n.whole) && (n.minus || n.whole != [])
    && (n.fraction.Some? ==> AllDigits(n.fraction.value))
    && (n.exponent.Some? ==>
          && n.exponent.value.letter as char in {'e', 'E'}
          && (n.exponent.value.sign.Some? ==> n.exponent.value.sign.value as char in {'+', '-'})
          && AllDigits(n.exponent.value.digits))
  }

  function SpellFraction(n: Number): Bytes {
    if n.fraction.None? then [] else [0x2E] + n.fraction.value
  }

  function SpellExponent(n: Number): Bytes {
    if n.exponent.None? then []
    else
      var e := n.exponent.value;
      [e.letter] + (if e.sign.None? then [] else [e.sign.value]) + e.digits
  }

  function SpellNumber(n: Number): Bytes {
    (if n.minus then [0x2D] else []) + n.whole + SpellFraction(n) + SpellExponent(n)
  }

  /** What is left of a number in 64 bits with a sign. */
  function Wrapped(x: nat): (r: int)
    ensures x < 0x8000_0000_0000_0000 ==> r == x
  {
    var low := x % 0x1_0000_0000_0000_0000;
    if low < 0x8000_0000_0000_0000 then low else low - 0x1_0000_0000_0000_0000
  }

  /** Some digit follows a part that has reached a tenth of the unsigned range. */
  ghost predicate TooLong(whole: Bytes)
    requires AllDigits(whole)
  {
    exists k :: 0 <= k < |whole| && Wrapped(Value(whole[..k])) >= 1844674407370955161
  }

  /** The integer a number without fraction and exponent is, if it is one: down to
      -9223372036854775799, and up to the end of the range; beyond it signed overflow, which
      C++ leaves undefined and which wraps here, until the digits are too many. */
  ghost function AsInteger(n: Number): Option<int>
    requires LegalNumber(n)
  {
    if n.fraction.Some? || n.exponent.Some? then None
    else if n.minus then
      if Value(n.whole) <= 9223372036854775799 then Some(0 - Value(n.whole) as int) else None
    else if TooLong(n.whole) then None
    else Some(Wrapped(Value(n.whole)))
  }

  // ----- values

  datatype Tree =
    | NullTree
    | TrueTree
    | FalseTree
    | NumberTree(number: Number)
    | StringTree(chars: seq<Char>)
    | EmptyArray(blank: Bytes)
    | ArrayTree(items: Items)
    | EmptyObject(blank: Bytes)
    | ObjectTree(entries: Entries)

  /** A value between blanks. */
  datatype Item = Item(before: Bytes, tree: Tree, after: Bytes)

  datatype Items = LastItem(item: Item) | MoreItems(item: Item, rest: Items)

  /** A name between blanks and a value. */
  datatype Entry = Entry(before: Bytes, name: seq<Char>, between: Bytes, value: Item)

  /** `tail` is what stands behind a comma that nothing but blanks follow. */
  datatype Entries = LastEntry(entry: Entry, tail: Option<Bytes>) | MoreEntries(entry: Entry, rest: Entries)

  function SpellName(cs: seq<Char>): Bytes {
    [0x22] + SpellText(cs) + [0x22]
  }

  function Spell(t: Tree): Bytes {
    match t
    case NullTree => [0x6E, 0x75, 0x6C, 0x6C]
    case TrueTree => [0x74, 0x72, 0x75, 0x65]
    case FalseTree => [0x66, 0x61, 0x6C, 0x73, 0x65]
    case NumberTree(n) => SpellNumber(n)
    case StringTree(cs) => SpellName(cs)
    case EmptyArray(b) => [0x5B] + b + [0x5D]
    case ArrayTree(items) => [0x5B] + SpellItems(items)
    case EmptyObject(b) => [0x7B] + b + [0x7D]
    case ObjectTree(entries) => [0x7B] + SpellEntries(entries)
  }

  function SpellItem(i: Item): Bytes {
    i.before + Spell(i.tree) + i.after
  }

  function SpellItems(items: Items): Bytes {
    match items
    case LastItem(i) => SpellItem(i) + [0x5D]
    case MoreItems(i, rest) => SpellItem(i) + [0x2C] + SpellItems(rest)
  }

  function SpellEntry(e: Entry): Bytes {
    e.before + SpellName(e.name) + e.between + [0x3A] + SpellItem(e.value)
  }

  function SpellEntries(entries: Entries): Bytes {
    match entries
    case LastEntry(e, tail) =>
      SpellEntry(e) + (if tail.None? then [] else [0x2C] + tail.value) + [0x7D]
    case MoreEntries(e, rest) => SpellEntry(e) + [0x2C] + SpellEntries(rest)
  }

  /** `readable` are the reals the C library reads. */
  ghost predicate Legal(t: Tree, readable: Bytes -> bool) {
    match t
    case NumberTree(n) => LegalNumber(n) && (AsInteger(n).None? ==> readable(SpellNumber(n)))
    case StringTree(cs) => LegalText(cs)
    case EmptyArray(b) => Blank(b)
    case ArrayTree(items) => LegalItems(items, readable)
    case EmptyObject(b) => Blank(b)
    case ObjectTree(entries) => LegalEntries(entries, readable)
    case _ => true
  }

  predicate Padded(i: Item) {
    Blank(i.before) && Blank(i.after)
  }

  ghost predicate LegalItems(items: Items, readable: Bytes -> bool) {
    && Padded(items.item) && Legal(items.item.tree, readable)
    && match items
       case LastItem(_) => true
       case MoreItems(_, rest) => LegalItems(rest, readable)
  }

  predicate LegalName(e: Entry) {
    Blank(e.before) && LegalText(e.name) && Blank(e.between)
  }

  /** A comma may stand in front of the closing brace, if the last name is empty. */
  ghost predicate LegalEntries(entries: Entries, readable: Bytes -> bool) {
    var e := entries.entry;
    && LegalName(e) && Padded(e.value) && Legal(e.value.tree, readable)
    && match entries
       case LastEntry(_, tail) => tail.Some? ==> Blank(tail.value) && TextMeans(e.name) == []
       case MoreEntries(_, rest) => LegalEntries(rest, readable)
  }

  ghost function Means(t: Tree, readable: Bytes -> bool): JsonValue
    requires Legal(t, readable)
  {
    match t
    case NullTree => Null
    case TrueTree => Bool(true)
    case FalseTree => Bool(false)
    case NumberTree(n) => if AsInteger(n).Some? then Int(AsInteger(n).value) else Real(SpellNumber(n))
    case StringTree(cs) => Str(TextMeans(cs))
    case EmptyArray(_) => Array([])
    case ArrayTree(items) => Array(ItemsMean(items, readable))
    case EmptyObject(_) => Object([])
    case ObjectTree(entries) => Object(Settled([], entries, readable))
  }

  ghost function ItemsMean(items: Items, readable: Bytes -> bool): seq<JsonValue>
    requires LegalItems(items, readable)
  {
    match items
    case LastItem(i) => [Means(i.tree, readable)]
    case MoreItems(i, rest) => [Means(i.tree, readable)] + ItemsMean(rest, readable)
  }

  /** The members with every entry set in turn: a later value replaces an earlier one. */
  ghost function Settled(members: seq<Member>, entries: Entries, readable: Bytes -> bool): seq<Member>
    requires LegalEntries(entries, readable)
    decreases entries
  {
    var e := entries.entry;
    var members' := Insert(members, TextMeans(e.name), Means(e.value.tree, readable));
    match entries
    case LastEntry(_, _) => members'
    case MoreEntries(_, rest) => Settled(members', rest, readable)
  }

  /** A document spells a value between blanks. */
  ghost predicate IsTextOf(i: Item, document: Bytes, readable: Bytes -> bool) {
    Padded(i) && Legal(i.tree, readable) && document == SpellItem(i)
  }

  // ----- texts of RFC 8259

  predicate StandardChar(c: Char) {
    && LegalChar(c)
    && match c
       case Raw(b) => b >= 0x20
       case Short(_) => true
       case Unit(hex) => !(0xDC00 <= CodeUnit(hex) < 0xE000)
       case Surrogates(_, low) => 0xDC00 <= CodeUnit(low) < 0xE000
  }

  /** An integer as the standard writes it, and as 64 bits hold it but for the last nine. */
  predicate StandardInteger(n: Number) {
    && n.fraction.None? && n.exponent.None? && n.whole != [] && AllDigits(n.whole)
    && (|n.whole| > 1 ==> n.whole[0] != 0x30)
    && if n.minus then Value(n.whole) <= 9223372036854775799 else Value(n.whole) <= 9223372036854775807
  }

  predicate Standard(t: Tree) {
    match t
    case NumberTree(n) => StandardInteger(n)
    case StringTree(cs) => forall i :: 0 <= i < |cs| ==> StandardChar(cs[i])
    case EmptyArray(b) => Blank(b)
    case ArrayTree(items) => StandardItems(items)
    case EmptyObject(b) => Blank(b)
    case ObjectTree(entries) => StandardEntries(entries)
    case _ => true
  }

  predicate StandardItems(items: Items) {
    && Padded(items.item) && Standard(items.item.tree)
    && match items
       case LastItem(_) => true
       case MoreItems(_, rest) => StandardItems(rest)
  }

  predicate StandardEntries(entries: Entries) {
    var e := entries.entry;
    && Blank(e.before) && (forall i :: 0 <= i < |e.name| ==> StandardChar(e.name[i])) && Blank(e.between)
    && Padded(e.value) && Standard(e.value.tree)
    && match entries
       case LastEntry(_, tail) => tail.None?
       case MoreEntries(_, rest) => StandardEntries(rest)
  }

  lemma {:induction false} PrefixBelow(whole: Bytes, k: nat)
    requires AllDigits(whole) && k < |whole|
    ensures 10 * Value(whole[..k]) <= Value(whole)
  {
    if k < |whole| - 1 {
      PrefixBelow(whole[..|whole| - 1], k);
      assert whole[..|whole| - 1][..k] == whole[..k];
    }
  }

  /** Such an integer is the number it stands for. */
  lemma StandardIntegerIs(n: Number)
    requires StandardInteger(n)
    ensures LegalNumber(n) && AsInteger(n) == Some(if n.minus then 0 - Value(n.whole) as int else Value(n.whole))
  {
    if !n.minus {
      forall k | 0 <= k < |n.whole|
        ensures Wrapped(Value(n.whole[..k])) < 1844674407370955161
      {
        PrefixBelow(n.whole, k);
      }
    }
  }

  /** Every text of the standard whose numbers are such integers is one of the grammar. */
  lemma {:induction false} StandardIsLegal(t: Tree, readable: Bytes -> bool)
    requires Standard(t)
    ensures Legal(t, readable)
    decreases t
  {
    match t
    case NumberTree(n) => StandardIntegerIs(n);
    case ArrayTree(items) => StandardItemsAreLegal(items, readable);
    case ObjectTree(entries) => StandardEntriesAreLegal(entries, readable);
    case _ =>
  }

  lemma {:induction false} StandardItemsAreLegal(items: Items, readable: Bytes -> bool)
    requires StandardItems(items)
    ensures LegalItems(items, readable)
    decreases items
  {
    StandardIsLegal(items.item.tree, readable);
    match items
    case LastItem(_) =>
    case MoreItems(_, rest) => StandardItemsAreLegal(rest, readable);
  }

  lemma {:induction false} StandardEntriesAreLegal(entries: Entries, readable: Bytes -> bool)
    requires StandardEntries(entries)
    ensures LegalEntries(entries, readable)
    decreases entries
  {
    StandardIsLegal(entries.entry.value.tree, readable);
    match entries
    case LastEntry(_, _) =>
    case MoreEntries(_, rest) => StandardEntriesAreLegal(rest, readable);
  }

  // ----- what an object means

  /** The value of the last entry of a name. */
  ghost function LastValue(entries: Entries, name: Bytes, readable: Bytes -> bool): Option<JsonValue>
    requires LegalEntries(entries, readable)
  {
    var e := entries.entry;
    var here := if TextMeans(e.name) == name then Some(Means(e.value.tree, readable)) else None;
    match entries
    case LastEntry(_, _) => here
    case MoreEntries(_, rest) =>
      var later := LastValue(rest, name, readable);
      if later.Some? then later else here
  }

  lemma {:induction false} SettledHolds(members: seq<Member>, entries: Entries, readable: Bytes -> bool)
    requires LegalEntries(entries, readable) && Sorted(members)
    ensures Sorted(Settled(members, entries, readable))
    ensures forall m :: m in Settled(members, entries, readable) <==>
              var last := LastValue(entries, m.name, readable);
              if last.Some? then m.value == last.value else m in members
    decreases entries
  {
    hide Sorted, Insert, Legal, Means, TextMeans, LegalText, Blank;
    var e := entries.entry;
    var name, value := TextMeans(e.name), Means(e.value.tree, readable);
    InsertSorted(members, name, value);
    InsertHolds(members, name, value);
    match entries
    case LastEntry(_, _) =>
    case MoreEntries(_, rest) => SettledHolds(Insert(members, name, value), rest, readable);
  }

  /** An object has exactly the names of its entries, in order, each with its last value. */
  lemma ObjectHolds(entries: Entries, readable: Bytes -> bool)
    requires LegalEntries(entries, readable)
    ensures Sorted(Settled([], entries, readable))
    ensures forall name, value :: Member(name, value) in Settled([], entries, readable) <==>
              LastValue(entries, name, readable) == Some(value)
  {
    hide LegalEntries, Settled, LastValue;
    SettledHolds([], entries, readable);
    forall name, value
      ensures Member(name, value) in Settled([], entries, readable) <==>
              LastValue(entries, name, readable) == Some(value)
    {
      var m := Member(name, value);
      assert m.name == name && m.value == value;
    }
  }
}
