/** The numbers of the reader against the grammar: which token a number is and what it decodes to. */
module JsonNumerals {
  import opened Bytes
  import opened Options
  import opened Numerals
  import opened JsonGrammar
  import JsonNumbers
  import JsonParsing

  // ----- the digit loop

  lemma Modulo(y: int, j: int)
    ensures (y - j * JsonNumbers.TWO64) % JsonNumbers.TWO64 == y % JsonNumbers.TWO64
  {
  }

  lemma WrappedStep(x: nat, d: nat)
    ensures JsonNumbers.Signed64(Wrapped(x) * 10 + d) == Wrapped(10 * x + d)
  {
    var k := (x - Wrapped(x)) / JsonNumbers.TWO64;
    assert x - Wrapped(x) == k * JsonNumbers.TWO64;
    Modulo(10 * x + d, 10 * k);
  }

  /** Behind the first `p` digits, some digit follows a part that has reached the threshold. */
  ghost predicate Reaches(whole: Bytes, p: nat, threshold: int)
    requires AllDigits(whole)
  {
    exists k :: p <= k < |whole| && Wrapped(Value(whole[..k])) >= threshold
  }

  lemma NextValue(whole: Bytes, p: nat)
    requires AllDigits(whole) && p < |whole|
    ensures JsonNumbers.IsDigit(whole[p])
    ensures Value(whole[..p + 1]) == 10 * Value(whole[..p]) + (whole[p] - 0x30)
  {
    assert whole[..p + 1][..p] == whole[..p];
  }

  lemma {:induction false} DigitsDecode(whole: Bytes, p: nat, negative: bool)
    requires AllDigits(whole) && p <= |whole|
    ensures JsonNumbers.DecodeDigits(whole[p..], Wrapped(Value(whole[..p])), JsonNumbers.Limit(negative),
                                     JsonNumbers.Threshold(negative))
         == if Reaches(whole, p, JsonNumbers.Threshold(negative)) then JsonNumbers.Floating
            else JsonNumbers.Integer(Wrapped(Value(whole)))
    decreases |whole| - p
  {
    hide JsonNumbers.Limit, JsonNumbers.Threshold, Wrapped, Value;
    if p == |whole| {
      assert whole[..p] == whole && whole[p..] == [];
    } else {
      hide JsonNumbers.DecodeDigits;
      var v := Wrapped(Value(whole[..p]));
      if v >= JsonNumbers.Threshold(negative) {
        JsonNumbers.AtThreshold(whole[p..], v, negative);
      } else {
        hide Reaches;
        DigitsDecode(whole, p + 1, negative);
        NextValue(whole, p);
        WrappedStep(Value(whole[..p]), whole[p] - 0x30);
        OneDigit(whole, p, v, JsonNumbers.Limit(negative), JsonNumbers.Threshold(negative));
        ReachesLater(whole, p, JsonNumbers.Threshold(negative));
      }
    }
  }

  lemma ReachesLater(whole: Bytes, p: nat, threshold: int)
    requires AllDigits(whole) && p < |whole| && Wrapped(Value(whole[..p])) < threshold
    ensures Reaches(whole, p, threshold) <==> Reaches(whole, p + 1, threshold)
  {
    hide Wrapped, Value;
  }

  lemma OneDigit(whole: Bytes, p: nat, v: int, limit: int, threshold: int)
    requires p < |whole| && JsonNumbers.IsDigit(whole[p]) && v < threshold
    ensures JsonNumbers.DecodeDigits(whole[p..], v, limit, threshold)
         == JsonNumbers.DecodeDigits(whole[p + 1..], JsonNumbers.Signed64(v * 10 + (whole[p] - 0x30)), limit, threshold)
  {
    assert whole[p..][1..] == whole[p + 1..];
  }

  // ----- the threshold of negative numbers

  lemma {:induction false} PrefixTenth(whole: Bytes, k: nat)
    requires AllDigits(whole) && k < |whole|
    ensures 10 * Value(whole[..k]) <= Value(whole)
  {
    if k < |whole| - 1 {
      PrefixTenth(whole[..|whole| - 1], k);
      assert whole[..|whole| - 1][..k] == whole[..k];
    }
  }

  lemma {:induction false} FirstReach(whole: Bytes, threshold: nat) returns (k: nat)
    requires AllDigits(whole) && Value(whole) >= 10 * threshold && threshold > 0
    ensures k < |whole| && threshold <= Value(whole[..k]) < 10 * threshold
  {
    var front := whole[..|whole| - 1];
    if Value(front) < 10 * threshold {
      k := |whole| - 1;
    } else {
      k := FirstReach(front, threshold);
      assert whole[..k] == front[..k];
    }
  }

  lemma NegativeReaches(whole: Bytes)
    requires AllDigits(whole)
    ensures Reaches(whole, 0, 922337203685477580) <==> Value(whole) > 9223372036854775799
  {
    if Reaches(whole, 0, 922337203685477580) {
      var k :| 0 <= k < |whole| && Wrapped(Value(whole[..k])) >= 922337203685477580;
      PrefixTenth(whole, k);
    }
    if Value(whole) > 9223372036854775799 {
      var k := FirstReach(whole, 922337203685477580);
    }
  }

  // ----- what a number decodes to

  lemma {:induction false} OtherFollows(whole: Bytes, x: Bytes, v: int, limit: int, threshold: int)
    requires AllDigits(whole) && x != [] && !JsonNumbers.IsDigit(x[0])
    ensures JsonNumbers.DecodeDigits(whole + x, v, limit, threshold) == JsonNumbers.Floating
  {
    var text := whole + x;
    if whole == [] {
      assert text == x;
    } else {
      assert text[1..] == whole[1..] + x && '0' <= whole[0] as char <= '9';
      OtherFollows(whole[1..], x, JsonNumbers.Signed64(v * 10 + (whole[0] - 0x30)), limit, threshold);
    }
  }

  lemma BehindTheSign(n: Number)
    requires LegalNumber(n)
    ensures var text := SpellNumber(n);
            && text != [] && (text[0] == JsonNumbers.MINUS <==> n.minus)
            && (if n.minus then text[1..] else text) == n.whole + (SpellFraction(n) + SpellExponent(n))
  {
    var x := SpellFraction(n) + SpellExponent(n);
    assert SpellNumber(n) == (if n.minus then [0x2D] else []) + (n.whole + x);
    hide SpellNumber, SpellFraction, SpellExponent;
    if !n.minus {
      assert SpellNumber(n) == n.whole + x && '0' <= n.whole[0] as char;
    }
  }

  lemma StaysFloating(token: Bytes)
    requires token != []
    requires var negative := token[0] == JsonNumbers.MINUS;
             JsonNumbers.DecodeDigits(if negative then token[1..] else token, 0, JsonNumbers.Limit(negative),
                                      JsonNumbers.Threshold(negative)).Floating?
    ensures JsonNumbers.DecodeNumber(token) == JsonNumbers.Floating
  {
    hide JsonNumbers.Limit, JsonNumbers.Threshold, JsonNumbers.DecodeDigits;
  }

  lemma NoDigits(whole: Bytes)
    ensures Value([]) == 0 && Wrapped(0) == 0 && whole[0..] == whole && whole[..0] == []
  {
  }

  lemma TooLongIs(whole: Bytes)
    requires AllDigits(whole)
    ensures TooLong(whole) <==> Reaches(whole, 0, 1844674407370955161)
  {
    hide Wrapped, Value;
  }

  lemma StaysInteger(token: Bytes, value: int)
    requires token != [] && (token[0] == JsonNumbers.MINUS ==> value != JsonNumbers.MIN64)
    requires var negative := token[0] == JsonNumbers.MINUS;
             JsonNumbers.DecodeDigits(if negative then token[1..] else token, 0, JsonNumbers.Limit(negative),
                                      JsonNumbers.Threshold(negative)) == JsonNumbers.Integer(value)
    ensures JsonNumbers.DecodeNumber(token)
         == JsonNumbers.Integer(if token[0] == JsonNumbers.MINUS then -value else value)
  {
    JsonNumbers.Limits();
    hide JsonNumbers.Limit, JsonNumbers.Threshold, JsonNumbers.DecodeDigits;
  }

  /** Behind its sign an integer is its digits. */
  lemma OnlyDigits(n: Number)
    requires LegalNumber(n) && n.fraction.None? && n.exponent.None?
    ensures var text := SpellNumber(n);
            && text != [] && (text[0] == JsonNumbers.MINUS <==> n.minus)
            && (if n.minus then text[1..] else text) == n.whole
  {
    BehindTheSign(n);
    assert n.whole + (SpellFraction(n) + SpellExponent(n)) == n.whole;
    hide SpellNumber, LegalNumber;
  }

  lemma WholeDecodes(whole: Bytes, negative: bool)
    requires AllDigits(whole)
    ensures JsonNumbers.DecodeDigits(whole, 0, JsonNumbers.Limit(negative), JsonNumbers.Threshold(negative))
         == if Reaches(whole, 0, JsonNumbers.Threshold(negative)) then JsonNumbers.Floating
            else JsonNumbers.Integer(Wrapped(Value(whole)))
  {
    hide JsonNumbers.Limit, JsonNumbers.Threshold, JsonNumbers.DecodeDigits, Reaches;
    NoDigits(whole);
    hide Value, Wrapped;
    DigitsDecode(whole, 0, negative);
  }

  lemma IntegerDecodes(n: Number)
    requires LegalNumber(n) && n.fraction.None? && n.exponent.None?
    ensures JsonNumbers.DecodeNumber(SpellNumber(n))
         == if AsInteger(n).Some? then JsonNumbers.Integer(AsInteger(n).value) else JsonNumbers.Floating
  {
    JsonNumbers.Limits();
    hide JsonNumbers.Limit, JsonNumbers.Threshold, JsonNumbers.DecodeDigits, JsonNumbers.DecodeNumber, Value,
         SpellNumber, TooLong, Reaches;
    OnlyDigits(n);
    WholeDecodes(n.whole, n.minus);
    if n.minus {
      NegativeReaches(n.whole);
    } else {
      TooLongIs(n.whole);
    }
    if AsInteger(n).Some? {
      assert n.minus ==> Wrapped(Value(n.whole)) == Value(n.whole);
      hide Wrapped;
      StaysInteger(SpellNumber(n), Wrapped(Value(n.whole)));
    } else {
      StaysFloating(SpellNumber(n));
    }
  }

  lemma RealEnd(n: Number)
    requires LegalNumber(n) && (n.fraction.Some? || n.exponent.Some?)
    ensures var x := SpellFraction(n) + SpellExponent(n); x != [] && !JsonNumbers.IsDigit(x[0])
  {
    if n.fraction.Some? {
      assert SpellFraction(n)[0] == 0x2E;
    } else {
      assert SpellFraction(n) + SpellExponent(n) == SpellExponent(n);
      assert SpellExponent(n)[0] == n.exponent.value.letter;
    }
  }

  lemma RealDecodes(n: Number)
    requires LegalNumber(n) && (n.fraction.Some? || n.exponent.Some?)
    ensures JsonNumbers.DecodeNumber(SpellNumber(n)) == JsonNumbers.Floating
  {
    RealEnd(n);
    BehindTheSign(n);
    hide JsonNumbers.Limit, JsonNumbers.Threshold, JsonNumbers.DecodeDigits, JsonNumbers.DecodeNumber, SpellNumber,
         SpellFraction, SpellExponent;
    OtherFollows(n.whole, SpellFraction(n) + SpellExponent(n), 0, JsonNumbers.Limit(n.minus),
                 JsonNumbers.Threshold(n.minus));
    StaysFloating(SpellNumber(n));
  }

  lemma NumberDecodes(n: Number)
    requires LegalNumber(n)
    ensures SpellNumber(n) != []
    ensures JsonNumbers.DecodeNumber(SpellNumber(n))
         == if AsInteger(n).Some? then JsonNumbers.Integer(AsInteger(n).value) else JsonNumbers.Floating
  {
    assert SpellNumber(n) != [];
    if n.fraction.None? && n.exponent.None? {
      IntegerDecodes(n);
    } else {
      RealDecodes(n);
    }
  }

  /** Every integer the format can hold but the last few is read as itself. */
  lemma IntegersAreKept(n: Number)
    requires LegalNumber(n) && n.fraction.None? && n.exponent.None?
    ensures !n.minus && Value(n.whole) < 0x8000_0000_0000_0000 ==> AsInteger(n) == Some(Value(n.whole))
    ensures n.minus ==> (AsInteger(n).Some? <==> Value(n.whole) <= 9223372036854775799)
  {
    if !n.minus && Value(n.whole) < 0x8000_0000_0000_0000 {
      forall k | 0 <= k < |n.whole|
        ensures Wrapped(Value(n.whole[..k])) < 1844674407370955161
      {
        PrefixTenth(n.whole, k);
      }
    }
  }

  // ----- the token

  /** What can follow a value. */
  predicate Stops(rest: Bytes) {
    rest == [] || rest[0] as char in {' ', '\t', '\r', '\n', ',', ']', '}'}
  }

  lemma NoneContinues(rest: Bytes)
    requires Stops(rest) && rest != []
    ensures !JsonNumbers.IsDigit(rest[0]) && rest[0] !in {0x2E, 0x65, 0x45, 0x2B, 0x2D}
  {
  }

  lemma {:induction false} RunOf(digits: Bytes, x: Bytes)
    requires AllDigits(digits) && (x == [] || !JsonNumbers.IsDigit(x[0]))
    ensures JsonParsing.DigitRun(digits + x) == |digits|
  {
    if digits == [] {
      assert digits + x == x;
    } else {
      assert '0' <= digits[0] as char <= '9' && (digits + x)[1..] == digits[1..] + x;
      RunOf(digits[1..], x);
    }
  }

  lemma NoExponentEnds(s: Bytes, b: nat)
    requires b <= |s| && Stops(s[b..])
    ensures JsonParsing.ExponentEnd(s, b) == b
  {
    hide JsonParsing.DigitRun;
    if b < |s| {
      NoneContinues(s[b..]);
      hide Stops;
      assert s[b] == s[b..][0];
    }
  }

  lemma SignedExponentEnds(s: Bytes, b: nat, sign: Byte, digits: Bytes, rest: Bytes)
    requires b + 2 <= |s| && s[b] in {0x65, 0x45} && s[b + 1] == sign && sign in {0x2B, 0x2D}
    requires s[b + 2..] == digits + rest && JsonParsing.DigitRun(digits + rest) == |digits|
    ensures JsonParsing.ExponentEnd(s, b) == |s| - |rest|
  {
    hide JsonParsing.DigitRun;
  }

  lemma UnsignedExponentEnds(s: Bytes, b: nat, digits: Bytes, rest: Bytes)
    requires b + 1 <= |s| && s[b] in {0x65, 0x45} && (b + 1 < |s| ==> s[b + 1] !in {0x2B, 0x2D})
    requires s[b + 1..] == digits + rest && JsonParsing.DigitRun(digits + rest) == |digits|
    ensures JsonParsing.ExponentEnd(s, b) == |s| - |rest|
  {
    hide JsonParsing.DigitRun;
  }

  lemma SpelledExponent(n: Number, rest: Bytes)
    requires n.exponent.Some?
    ensures var e := n.exponent.value;
            var sign := if e.sign.None? then [] else [e.sign.value];
            SpellExponent(n) + rest == [e.letter] + (sign + (e.digits + rest))
  {
  }

  lemma ExponentEnds(n: Number, s: Bytes, b: nat, rest: Bytes)
    requires LegalNumber(n) && Stops(rest) && b <= |s| && s[b..] == SpellExponent(n) + rest
    ensures JsonParsing.ExponentEnd(s, b) == |s| - |rest|
  {
    if n.exponent.None? {
      hide JsonParsing.ExponentEnd, Stops;
      assert SpellExponent(n) + rest == rest;
      NoExponentEnds(s, b);
    } else {
      var e := n.exponent.value;
      SpelledExponent(n, rest);
      if rest != [] {
        NoneContinues(rest);
      }
      hide JsonParsing.DigitRun, JsonParsing.ExponentEnd, SpellExponent;
      RunOf(e.digits, rest);
      assert s[b] == s[b..][0] && s[b + 1..] == s[b..][1..];
      if e.sign.Some? {
        assert s[b + 1] == s[b + 1..][0] && s[b + 2..] == s[b + 1..][1..];
        SignedExponentEnds(s, b, e.sign.value, e.digits, rest);
      } else {
        assert s[b + 1..] == e.digits + rest;
        NotASign(e.digits, rest);
        assert b + 1 < |s| ==> s[b + 1] == s[b + 1..][0];
        UnsignedExponentEnds(s, b, e.digits, rest);
      }
    }
  }

  lemma NotASign(digits: Bytes, rest: Bytes)
    requires AllDigits(digits) && Stops(rest)
    ensures digits + rest != [] ==> (digits + rest)[0] != 0x2B && (digits + rest)[0] != 0x2D
  {
    if digits != [] {
      assert '0' <= digits[0] as char;
    } else {
      assert digits + rest == rest;
    }
  }

  lemma ExponentStarts(n: Number, rest: Bytes)
    requires LegalNumber(n) && Stops(rest)
    ensures var x := SpellExponent(n) + rest; x == [] || (!JsonNumbers.IsDigit(x[0]) && x[0] != 0x2E)
  {
    if n.exponent.None? {
      assert SpellExponent(n) + rest == rest;
      if rest != [] {
        NoneContinues(rest);
      }
    } else {
      assert (SpellExponent(n) + rest)[0] == n.exponent.value.letter;
    }
  }

  lemma FractionEnds(n: Number, s: Bytes, a: nat, rest: Bytes)
    requires LegalNumber(n) && Stops(rest) && a <= |s| && s[a..] == SpellFraction(n) + (SpellExponent(n) + rest)
    ensures JsonParsing.FractionEnd(s, a) == |s| - |SpellExponent(n) + rest|
  {
    var x := SpellExponent(n) + rest;
    ExponentStarts(n, rest);
    hide SpellExponent, Stops, JsonParsing.DigitRun;
    if n.fraction.None? {
      assert s[a..] == x;
      assert x != [] ==> s[a] == s[a..][0];
    } else {
      var digits := n.fraction.value;
      RunOf(digits, x);
      assert s[a..] == [0x2E] + (digits + x);
      assert s[a] == s[a..][0] && s[a + 1..] == s[a..][1..] == digits + x;
    }
  }

  lemma FractionStarts(n: Number, rest: Bytes)
    requires LegalNumber(n) && Stops(rest)
    ensures var y := SpellFraction(n) + (SpellExponent(n) + rest); y == [] || !JsonNumbers.IsDigit(y[0])
  {
    ExponentStarts(n, rest);
    hide SpellExponent;
    if n.fraction.None? {
      assert SpellFraction(n) + (SpellExponent(n) + rest) == SpellExponent(n) + rest;
    }
  }

  /** Behind the first character the rest of the number is read, and nothing of what follows. */
  lemma TailEnds(n: Number, digits: Bytes, rest: Bytes)
    requires LegalNumber(n) && AllDigits(digits) && Stops(rest)
    ensures JsonParsing.NumberTail(digits + (SpellFraction(n) + (SpellExponent(n) + rest)))
         == |digits| + |SpellFraction(n)| + |SpellExponent(n)|
  {
    hide SpellFraction, SpellExponent, Stops, JsonParsing.FractionEnd, JsonParsing.ExponentEnd, JsonParsing.DigitRun;
    var x := SpellExponent(n) + rest;
    var y := SpellFraction(n) + x;
    var s := digits + y;
    FractionStarts(n, rest);
    RunOf(digits, y);
    assert s[|digits|..] == y;
    FractionEnds(n, s, |digits|, rest);
    var b := |s| - |x|;
    assert s[b..] == x;
    ExponentEnds(n, s, b, rest);
  }

  lemma NumberToken(n: Number, rest: Bytes)
    requires LegalNumber(n) && Stops(rest)
    ensures JsonParsing.ReadToken(SpellNumber(n) + rest)
         == JsonParsing.Lexed(JsonParsing.Token(JsonParsing.NumberToken, SpellNumber(n)), rest)
  {
    var text, digits := SpellNumber(n), if n.minus then n.whole else n.whole[1..];
    FirstAndTail(n, digits, rest);
    TailEnds(n, digits, rest);
    hide SpellNumber, SpellFraction, SpellExponent, LegalNumber, Stops;
    TokenOf(text, rest);
  }

  lemma FirstAndTail(n: Number, digits: Bytes, rest: Bytes)
    requires LegalNumber(n) && digits == if n.minus then n.whole else n.whole[1..]
    ensures AllDigits(digits)
    ensures SpellNumber(n) != [] && (SpellNumber(n)[0] == 0x2D || JsonNumbers.IsDigit(SpellNumber(n)[0]))
    ensures |SpellNumber(n)| == 1 + |digits| + |SpellFraction(n)| + |SpellExponent(n)|
    ensures (SpellNumber(n) + rest)[1..] == digits + (SpellFraction(n) + (SpellExponent(n) + rest))
  {
    hide SpellFraction, SpellExponent;
    var f, x := SpellFraction(n), SpellExponent(n);
    if n.minus {
      assert SpellNumber(n) == [0x2D] + (digits + f + x);
    } else {
      assert '0' <= n.whole[0] as char <= '9';
      assert SpellNumber(n) == [n.whole[0]] + (digits + f + x);
    }
    assert (digits + f + x) + rest == digits + (f + (x + rest));
  }

  lemma TokenOf(text: Bytes, rest: Bytes)
    requires text != [] && (text[0] == 0x2D || JsonNumbers.IsDigit(text[0]))
    requires JsonParsing.NumberTail((text + rest)[1..]) == |text| - 1
    ensures JsonParsing.ReadToken(text + rest)
         == JsonParsing.Lexed(JsonParsing.Token(JsonParsing.NumberToken, text), rest)
  {
    var s := text + rest;
    assert JsonParsing.Front(s) == (JsonParsing.NumberToken, |text|) by { hide JsonParsing.NumberTail; }
    assert s[..|text|] == text && s[|text|..] == rest;
    hide JsonParsing.Front, JsonParsing.NumberTail;
  }

  // ----- every number token is spelled by the grammar

  lemma {:induction false} RunIsDigits(s: Bytes)
    ensures AllDigits(s[..JsonParsing.DigitRun(s)])
  {
    if s != [] && JsonNumbers.IsDigit(s[0]) {
      RunIsDigits(s[1..]);
      var r := JsonParsing.DigitRun(s[1..]);
      assert s[..r + 1] == [s[0]] + s[1..][..r];
    }
  }

  lemma FractionFrom(s: Bytes, a: nat) returns (fraction: Option<Bytes>)
    requires a <= |s|
    ensures fraction.Some? ==> AllDigits(fraction.value)
    ensures s[a..JsonParsing.FractionEnd(s, a)] == if fraction.None? then [] else [0x2E] + fraction.value
  {
    if a < |s| && s[a] == 0x2E {
      var b := JsonParsing.FractionEnd(s, a);
      RunIsDigits(s[a + 1..]);
      fraction := Some(s[a + 1..][..b - a - 1]);
      assert s[a..b] == [0x2E] + fraction.value;
    } else {
      fraction := None;
    }
  }

  lemma ExponentFrom(s: Bytes, b: nat) returns (exponent: Option<Exponent>)
    requires b <= |s|
    ensures LegalNumber(Number(true, [], None, exponent))
    ensures s[b..JsonParsing.ExponentEnd(s, b)] == SpellExponent(Number(true, [], None, exponent))
  {
    if b < |s| && (s[b] == 0x65 || s[b] == 0x45) {
      var signed := b + 1 < |s| && (s[b + 1] == 0x2B || s[b + 1] == 0x2D);
      var d := if signed then b + 2 else b + 1;
      var e := d + JsonParsing.DigitRun(s[d..]);
      assert JsonParsing.ExponentEnd(s, b) == e;
      RunIsDigits(s[d..]);
      hide JsonParsing.DigitRun, JsonParsing.ExponentEnd;
      var digits := s[d..][..e - d];
      SliceOf(s, b, d, e);
      if signed {
        exponent := Some(Exponent(s[b], Some(s[b + 1]), digits));
        assert s[b..d] == [s[b]] + [s[b + 1]];
      } else {
        exponent := Some(Exponent(s[b], None, digits));
        assert s[b..d] == [s[b]] + [];
      }
    } else {
      exponent := None;
    }
  }

  /** What is read behind the first character: digits, a fraction and an exponent. */
  lemma TailFrom(t: Bytes) returns (n: Number)
    ensures LegalNumber(n) && n.minus
    ensures t[..JsonParsing.NumberTail(t)] == n.whole + SpellFraction(n) + SpellExponent(n)
  {
    var a := JsonParsing.DigitRun(t);
    var b := JsonParsing.FractionEnd(t, a);
    var e := JsonParsing.ExponentEnd(t, b);
    RunIsDigits(t);
    var fraction := FractionFrom(t, a);
    var exponent := ExponentFrom(t, b);
    hide JsonParsing.DigitRun, JsonParsing.FractionEnd, JsonParsing.ExponentEnd;
    n := Number(true, t[..a], fraction, exponent);
    assert SpellExponent(n) == t[b..e] && SpellFraction(n) == t[a..b];
    hide SpellExponent, SpellFraction;
    SliceOf(t, 0, a, b);
    SliceOf(t, 0, b, e);
  }

  lemma NumberFrom(s: Bytes) returns (n: Number)
    requires s != [] && (JsonNumbers.IsDigit(s[0]) || s[0] == JsonNumbers.MINUS)
    ensures LegalNumber(n) && SpellNumber(n) == s[..1 + JsonParsing.NumberTail(s[1..])]
  {
    hide JsonParsing.NumberTail, LegalNumber, SpellNumber, SpellFraction, SpellExponent;
    var t := TailFrom(s[1..]);
    var e := JsonParsing.NumberTail(s[1..]);
    assert s[..1 + e] == [s[0]] + s[1..][..e];
    n := Behind(s[0], t);
    BehindIs(s[0], t);
  }

  /** The number with its first character in front. */
  function Behind(c: Byte, t: Number): Number {
    if c == 0x2D then t else t.(minus := false, whole := [c] + t.whole)
  }

  lemma BehindIs(c: Byte, t: Number)
    requires LegalNumber(t) && t.minus && (JsonNumbers.IsDigit(c) || c == 0x2D)
    ensures LegalNumber(Behind(c, t))
    ensures SpellNumber(Behind(c, t)) == [c] + (t.whole + SpellFraction(t) + SpellExponent(t))
  {
    var n := Behind(c, t);
    var f, x := SpellFraction(t), SpellExponent(t);
    assert SpellFraction(n) == f && SpellExponent(n) == x;
    hide SpellFraction, SpellExponent;
    assert SpellNumber(n) == [c] + t.whole + f + x;
  }

  lemma SliceOf(s: Bytes, b: nat, d: nat, e: nat)
    requires b <= d <= e <= |s|
    ensures s[b..e] == s[b..d] + s[d..e] == s[b..d] + s[d..][..e - d]
  {
  }
}
