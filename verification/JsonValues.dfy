/** The value trees of src/common/json.h: objects are maps ordered by the byte order of their
    names, kept here as sequences in that order. */
module JsonValues {
  import opened Bytes
  import opened NameOrder

  datatype Member = Member(name: Bytes, value: JsonValue)

  /** A real keeps the characters it was read from; what number the C library makes of them
      is outside the model. */
  datatype JsonValue =
    | Null
    | Bool(b: bool)
    | Int(n: int)
    | Real(token: Bytes)
    | Str(s: Bytes)
    | Array(elems: seq<JsonValue>)
    | Object(members: seq<Member>)

  /** The member called `name`, or null. */
  function Lookup(members: seq<Member>, name: Bytes): JsonValue {
    if members == [] then Null
    else if members[0].name == name then members[0].value
    else Lookup(members[1..], name)
  }

  /** The members with `name` set to `value`. */
  function Insert(members: seq<Member>, name: Bytes, value: JsonValue): seq<Member> {
    if members == [] then [Member(name, value)]
    else if members[0].name == name then [Member(name, value)] + members[1..]
    else if NameLess(name, members[0].name) then [Member(name, value)] + members
    else [members[0]] + Insert(members[1..], name, value)
  }

  predicate Sorted(members: seq<Member>) {
    forall i, j :: 0 <= i < j < |members| ==> NameLess(members[i].name, members[j].name)
  }

  /** A name above all the others is new and goes last. */
  lemma {:induction false} InsertLast(members: seq<Member>, name: Bytes, value: JsonValue)
    requires forall i :: 0 <= i < |members| ==> NameLess(members[i].name, name)
    ensures Insert(members, name, value) == members + [Member(name, value)]
    ensures Lookup(members, name) == Null
  {
    if members != [] {
      NameLessAsymmetric(members[0].name, name);
      InsertLast(members[1..], name, value);
      assert members == [members[0]] + members[1..];
    }
  }

  /** Insertion keeps the order, and changes the value of `name` only. */
  lemma {:induction false} InsertSorted(members: seq<Member>, name: Bytes, value: JsonValue)
    requires Sorted(members)
    ensures Sorted(Insert(members, name, value))
    ensures forall i :: 0 <= i < |Insert(members, name, value)| ==>
      Insert(members, name, value)[i] == Member(name, value) || Insert(members, name, value)[i] in members
  {
    if members == [] {
    } else if members[0].name == name {
    } else if NameLess(name, members[0].name) {
      forall i | 0 <= i < |members| ensures NameLess(name, members[i].name) {
        if i > 0 {
          NameLessTransitive(name, members[0].name, members[i].name);
        }
      }
    } else {
      NameLessTotal(name, members[0].name);
      InsertSorted(members[1..], name, value);
    }
  }

  /** The members are those before, but for the one of the name. */
  lemma {:induction false} InsertHolds(members: seq<Member>, name: Bytes, value: JsonValue)
    requires Sorted(members)
    ensures forall m :: m in Insert(members, name, value) <==> if m.name == name then m.value == value else m in members
  {
    if members == [] {
    } else if members[0].name == name || NameLess(name, members[0].name) {
      assert members == [members[0]] + members[1..];
      NotBehind(members, name);
    } else {
      InsertHolds(members[1..], name, value);
      assert members == [members[0]] + members[1..];
    }
  }

  lemma NotBehind(members: seq<Member>, name: Bytes)
    requires Sorted(members) && members != [] && (members[0].name == name || NameLess(name, members[0].name))
    ensures forall m :: m in members[1..] ==> m.name != name
    ensures NameLess(name, members[0].name) ==> members[0].name != name
  {
    if NameLess(name, members[0].name) {
      NameLessAsymmetric(name, members[0].name);
    }
    forall m | m in members[1..]
      ensures m.name != name
    {
      var i :| 0 <= i < |members[1..]| && members[1..][i] == m;
      assert NameLess(members[0].name, members[i + 1].name);
      if NameLess(name, members[0].name) {
        NameLessTransitive(name, members[0].name, m.name);
      }
      NameLessAsymmetric(if NameLess(name, members[0].name) then name else members[0].name, m.name);
    }
  }

  lemma {:induction false} InsertLookup(members: seq<Member>, name: Bytes, value: JsonValue, other: Bytes)
    ensures Lookup(Insert(members, name, value), other) == if other == name then value else Lookup(members, other)
  {
    if members == [] || members[0].name == name || NameLess(name, members[0].name) {
    } else {
      InsertLookup(members[1..], name, value, other);
    }
  }
}
