/** Sequences back to front. */
module Sequences {
  function Reversed<T>(b: seq<T>): (r: seq<T>)
    ensures |r| == |b|
  {
    if b == [] then [] else Reversed(b[1..]) + [b[0]]
  }

  lemma {:induction false} ReversedSnoc<T>(b: seq<T>, x: T)
    ensures Reversed(b + [x]) == [x] + Reversed(b)
  {
    if b == [] {
      assert [] + [x] == [x];
    } else {
      assert (b + [x])[1..] == b[1..] + [x];
      ReversedSnoc(b[1..], x);
    }
  }

  lemma {:induction false} ReversedTwice<T>(b: seq<T>)
    ensures Reversed(Reversed(b)) == b
  {
    if b != [] {
      ReversedTwice(b[1..]);
      ReversedSnoc(Reversed(b[1..]), b[0]);
      assert [b[0]] + b[1..] == b;
    }
  }

  lemma {:induction false} ReversedConcat<T>(a: seq<T>, b: seq<T>)
    ensures Reversed(a + b) == Reversed(b) + Reversed(a)
  {
    if a == [] {
      assert [] + b == b && Reversed(b) + [] == Reversed(b);
    } else {
      assert (a + b)[1..] == a[1..] + b;
      ReversedConcat(a[1..], b);
    }
  }

  lemma ReversedAppend<T>(a: seq<T>, b: seq<T>)
    ensures Reversed(a + Reversed(b)) == b + Reversed(a)
  {
    ReversedConcat(a, Reversed(b));
    ReversedTwice(b);
  }
}
