/** What the reader keeps on every input, well formed or not. */
module JsonRecovery {
  import opened Bytes
  import opened JsonValues
  import opened JsonParsing
  import JsonNumbers
  import JsonStrings

  predicate IsSuffix(r: Bytes, s: Bytes) {
    |r| <= |s| && r == s[|s| - |r|..]
  }

  lemma SuffixTransitive(a: Bytes, b: Bytes, c: Bytes)
    requires IsSuffix(a, b) && IsSuffix(b, c)
    ensures IsSuffix(a, c)
  {
    assert b[|b| - |a|..] == c[|c| - |b|..][|b| - |a|..];
  }

  lemma {:induction false} SpacesSuffix(s: Bytes)
    ensures IsSuffix(SkipSpaces(s), s)
  {
    if s != [] && IsSpace(s[0]) {
      SpacesSuffix(s[1..]);
      SuffixTransitive(SkipSpaces(s), s[1..], s);
    }
  }

  /** A token is read off the front of the text, behind blanks. */
  lemma TokenSuffix(s: Bytes)
    ensures IsSuffix(ReadToken(s).rest, s)
  {
    hide Front;
    var t := SkipSpaces(s);
    SpacesSuffix(s);
    if t != [] {
      SuffixTransitive(t[Front(t).1..], t, s);
    }
  }

  /** Recovery reads forward to a token of the wanted kind, or to the end of the input. */
  lemma {:induction false} RecoveryStops(s: Bytes, until: Kind)
    ensures IsSuffix(Recover(s, until), s)
    ensures Recover(s, until) == [] ||
      exists t :: IsSuffix(t, s) && ReadToken(t).token.kind == until && ReadToken(t).rest == Recover(s, until)
    decreases |s|
  {
    hide ReadToken;
    var l := ReadToken(s);
    TokenSuffix(s);
    if l.token.kind == until || l.token.kind == EndOfStream {
    } else {
      RecoveryStops(l.rest, until);
      SuffixTransitive(Recover(l.rest, until), l.rest, s);
      if Recover(s, until) != [] {
        var t :| IsSuffix(t, l.rest) && ReadToken(t).token.kind == until && ReadToken(t).rest == Recover(s, until);
        SuffixTransitive(t, l.rest, s);
      }
    }
  }

  /** Every object of the tree is a map: its names are distinct and in order. */
  predicate Ordered(v: JsonValue) {
    match v
    case Array(elems) => forall e :: e in elems ==> Ordered(e)
    case Object(members) => OrderedMembers(members)
    case _ => true
  }

  predicate OrderedMembers(members: seq<Member>) {
    Sorted(members) && forall m :: m in members ==> Ordered(m.value)
  }

  /** The reader moved forward, kept the errors reported before and holds a proper tree. */
  predicate Sound(r: Outcome, s: Bytes, errors: seq<Error>) {
    IsSuffix(r.rest, s) && errors <= r.errors && Ordered(r.value)
  }

  lemma SoundFurther(r: Outcome, s: Bytes, s': Bytes, errors: seq<Error>, errors': seq<Error>)
    requires Sound(r, s, errors) && IsSuffix(s, s') && errors' <= errors
    ensures Sound(r, s', errors')
  {
    SuffixTransitive(r.rest, s, s');
  }

  lemma FailedIsSound(message: string, token: Token, value: JsonValue, rest: Bytes, errors: seq<Error>, until: Kind,
                      s: Bytes)
    requires IsSuffix(rest, s) && Ordered(value)
    ensures Sound(Failed(message, token, value, rest, errors, until), s, errors)
  {
    hide Ordered;
    RecoveryStops(rest, until);
    SuffixTransitive(Recover(rest, until), rest, s);
  }

  /** On every input: the position only moves forward within the text, no earlier error is
      lost, and what has been built, finished or not, is a proper tree. */
  lemma {:induction false} ReadValueSound(s: Bytes, current: JsonValue, errors: seq<Error>, readable: Bytes -> bool)
    requires Ordered(current)
    ensures Sound(ReadValue(s, current, errors, readable), s, errors)
    decreases |s|, 2
  {
    hide ReadToken, StringOf, ReadMembers, ReadArray, JsonNumbers.DecodeNumber, IsSuffix, OrderedMembers;
    var l := ReadToken(s);
    TokenSuffix(s);
    if l.token.kind == ObjectBegin {
      EmptyOrdered();
      ReadMembersSound(l.rest, [], [], errors, readable);
      SoundFurther(ReadMembers(l.rest, [], [], errors, readable), l.rest, s, errors, errors);
    } else if l.token.kind == ArrayBegin {
      ReadArraySound(l.rest, errors, readable);
      SoundFurther(ReadArray(l.rest, errors, readable), l.rest, s, errors, errors);
    }
  }

  lemma EmptyOrdered()
    ensures OrderedMembers([])
  {
  }

  lemma {:induction false} ReadArraySound(s: Bytes, errors: seq<Error>, readable: Bytes -> bool)
    ensures Sound(ReadArray(s, errors, readable), s, errors)
    decreases |s|, 4
  {
    hide SkipSpaces, ReadElements;
    var t := SkipSpaces(s);
    SpacesSuffix(s);
    if t != [] && t[0] == 0x5D {
      SuffixTransitive(t[1..], t, s);
    } else {
      ReadElementsSound(t, [], errors, readable);
      SoundFurther(ReadElements(t, [], errors, readable), t, s, errors, errors);
    }
  }

  lemma {:induction false} ReadElementsSound(s: Bytes, elems: seq<JsonValue>, errors: seq<Error>,
                                             readable: Bytes -> bool)
    requires forall e :: e in elems ==> Ordered(e)
    ensures Sound(ReadElements(s, elems, errors, readable), s, errors)
    decreases |s|, 3
  {
    hide ReadToken, ReadValue, Recover;
    ReadValueSound(s, Null, errors, readable);
    var item := ReadValue(s, Null, errors, readable);
    var elems' := elems + [item.value];
    var l := ReadToken(item.rest);
    TokenSuffix(item.rest);
    SuffixTransitive(l.rest, item.rest, s);
    if !item.ok {
      RecoveryStops(item.rest, ArrayEnd);
      SuffixTransitive(Recover(item.rest, ArrayEnd), item.rest, s);
    } else if l.token.kind != ArraySeparator && l.token.kind != ArrayEnd {
      FailedIsSound(MISSING_SEPARATOR, l.token, Array(elems'), l.rest, item.errors, ArrayEnd, s);
    } else if l.token.kind == ArraySeparator {
      ReadElementsSound(l.rest, elems', item.errors, readable);
      SoundFurther(ReadElements(l.rest, elems', item.errors, readable), l.rest, s, item.errors, errors);
    }
  }

  lemma {:induction false} ReadMembersSound(s: Bytes, members: seq<Member>, name: Bytes, errors: seq<Error>,
                                            readable: Bytes -> bool)
    requires OrderedMembers(members)
    ensures Sound(ReadMembers(s, members, name, errors, readable), s, errors)
    decreases |s|, 3
  {
    hide ReadToken, ReadMember, StringOf, Recover, OrderedMembers;
    var l := ReadToken(s);
    TokenSuffix(s);
    if l.token.kind == ObjectEnd && name == [] {
    } else if l.token.kind != StringToken {
      FailedIsSound(MISSING_NAME, l.token, Object(members), l.rest, errors, ObjectEnd, s);
    } else {
      match StringOf(l.token.text) {
        case Bad(message) => FailedIsSound(message, l.token, Object(members), l.rest, errors, ObjectEnd, s);
        case Text(name') =>
          ReadMemberSound(l.rest, members, name', errors, readable);
          SoundFurther(ReadMember(l.rest, members, name', errors, readable), l.rest, s, errors, errors);
      }
    }
  }

  lemma {:induction false} LookupOrdered(members: seq<Member>, name: Bytes)
    requires forall m :: m in members ==> Ordered(m.value)
    ensures Ordered(Lookup(members, name))
  {
    if members != [] && members[0].name != name {
      LookupOrdered(members[1..], name);
    }
  }

  lemma InsertOrdered(members: seq<Member>, name: Bytes, value: JsonValue)
    requires OrderedMembers(members) && Ordered(value)
    ensures OrderedMembers(Insert(members, name, value))
  {
    hide Insert, Ordered, Sorted;
    InsertSorted(members, name, value);
  }

  lemma {:induction false} ReadMemberSound(s: Bytes, members: seq<Member>, name: Bytes, errors: seq<Error>,
                                           readable: Bytes -> bool)
    requires OrderedMembers(members)
    ensures Sound(ReadMember(s, members, name, errors, readable), s, errors)
    decreases |s|, 3
  {
    var colon := ReadToken(s);
    TokenSuffix(s);
    LookupOrdered(members, name);
    hide ReadToken, ReadValue, Recover, Insert, Lookup, OrderedMembers;
    if colon.token.kind != MemberSeparator {
      FailedIsSound(MISSING_COLON, colon.token, Object(members), colon.rest, errors, ObjectEnd, s);
    } else {
      ReadValueSound(colon.rest, Lookup(members, name), errors, readable);
      var item := ReadValue(colon.rest, Lookup(members, name), errors, readable);
      SoundFurther(item, colon.rest, s, errors, errors);
      var members' := Insert(members, name, item.value);
      InsertOrdered(members, name, item.value);
      var comma := ReadToken(item.rest);
      TokenSuffix(item.rest);
      SuffixTransitive(comma.rest, item.rest, s);
      if !item.ok {
        RecoveryStops(item.rest, ObjectEnd);
        SuffixTransitive(Recover(item.rest, ObjectEnd), item.rest, s);
      } else if comma.token.kind != ObjectEnd && comma.token.kind != ArraySeparator {
        FailedIsSound(MISSING_MEMBER_SEPARATOR, comma.token, Object(members'), comma.rest, item.errors, ObjectEnd, s);
      } else if comma.token.kind == ArraySeparator {
        ReadMembersSound(comma.rest, members', name, item.errors, readable);
        SoundFurther(ReadMembers(comma.rest, members', name, item.errors, readable), comma.rest, s, item.errors,
          errors);
      }
    }
  }
}
