/**
 parseNumberFromStringWithBase for every integer type: accepts exactly the numerals of the
 strict strtol grammar whose value fits, and computes nothing outside the type on the way.
 */
module ParseNumber {
  import opened Bytes
  import opened Arithmetic

  /** numeric_limits of an integer type of at least eight bits. */
  datatype Limits = Limits(min: int, max: int) {
    predicate Valid() { max >= 127 && (min == 0 || min == -max - 1) }
    predicate Signed() { min < 0 }
    predicate Holds(x: int) { min <= x <= max }
  }

  datatype ParseResult =
    | Parsed(value: int)
    | InvalidBase
    | NoDigits
    | BadDigit(index: nat)
    | Underflow
    | Overflow
    | NegativeValue

  const ZERO: byte := 48
  const PLUS: byte := 43
  const MINUS: byte := 45
  const LOWER_X: byte := 120
  const UPPER_X: byte := 88

  /** 36 stands for no digit in any base. */
  function DigitValue(c: byte): (d: nat)
    ensures d <= 36
  {
    if 48 <= c <= 57 then c - 48
    else if 97 <= c <= 122 then c - 97 + 10
    else if 65 <= c <= 90 then c - 65 + 10
    else 36
  }

  predicate ValidBase(base: int) {
    base == 0 || 2 <= base <= 36
  }

  function ExtractSign(s: seq<byte>): (bool, seq<byte>) {
    if s != [] && s[0] == MINUS then (true, s[1..])
    else if s != [] && s[0] == PLUS then (false, s[1..])
    else (false, s)
  }

  predicate HasHexPrefix(s: seq<byte>) {
    |s| >= 2 && s[0] == ZERO && (s[1] == LOWER_X || s[1] == UPPER_X)
  }

  function ExtractBase(s: seq<byte>, inputBase: int): (r: (int, seq<byte>))
    requires ValidBase(inputBase)
    ensures 2 <= r.0 <= 36
  {
    if inputBase == 0 then
      if |s| > 2 && HasHexPrefix(s) then (16, s[2..])
      else if |s| > 1 && s[0] == ZERO then (8, s)
      else (10, s)
    else if inputBase == 16 && HasHexPrefix(s) then (16, s[2..])
    else (inputBase, s)
  }

  // The grammar.

  predicate AreDigits(s: seq<byte>, base: int) {
    forall i :: 0 <= i < |s| ==> DigitValue(s[i]) < base
  }

  function DigitsValue(s: seq<byte>, base: nat): nat {
    if s == [] then 0 else DigitsValue(s[..|s| - 1], base) * base + DigitValue(s[|s| - 1])
  }

  datatype Sign = NoSign | Minus | Plus
  datatype Prefix = NoPrefix | LowerHex | UpperHex

  function SignSpelling(sign: Sign): seq<byte> {
    match sign case NoSign => [] case Minus => [MINUS] case Plus => [PLUS]
  }

  /** A numeral taken apart; base is the one its digits are read in. */
  datatype Numeral = Numeral(sign: Sign, prefix: Prefix, base: nat, digits: seq<byte>) {
    function Spelling(): seq<byte> {
      SignSpelling(sign) + Unsigned()
    }

    function Unsigned(): seq<byte> {
      (match prefix case NoPrefix => [] case LowerHex => [ZERO, LOWER_X] case UpperHex => [ZERO, UPPER_X])
      + digits
    }

    function Meaning(): int {
      if sign.Minus? then -(DigitsValue(digits, base) as int) else DigitsValue(digits, base)
    }

    /** Section 7.20.1.4 of ISO C99, for the base asked for. */
    predicate WellFormed(asked: int) {
      && digits != [] && AreDigits(digits, base)
      && if asked != 0 then base == asked && (!prefix.NoPrefix? ==> asked == 16)
         else if !prefix.NoPrefix? then base == 16
         else base == if digits[0] == ZERO then 8 else 10
    }
  }

  /** s is this numeral, of a sign the type has and with a value the type holds. */
  predicate Fits(s: seq<byte>, base: int, t: Limits, n: Numeral) {
    s == n.Spelling() && n.WellFormed(base) && (n.sign.Minus? ==> t.Signed()) && t.Holds(n.Meaning())
  }

  /** What the code strips off is what the grammar names, save that a lone 0 is read as decimal. */
  lemma NumeralIsExtracted(base: int, n: Numeral)
    requires ValidBase(base) && n.WellFormed(base)
    ensures var (negative, rest) := ExtractSign(n.Spelling());
      negative == n.sign.Minus? && ExtractBase(rest, base).1 == n.digits
      && (ExtractBase(rest, base).0 == n.base || (n.digits == [ZERO] && ExtractBase(rest, base).0 == 10))
  {
    hide Numeral.Unsigned, ExtractSign, ExtractBase, Numeral.WellFormed;
    UnsignedHasNoSign(base, n);
    SignIsExtracted(n.sign, n.Unsigned());
    BaseIsExtracted(base, n);
  }

  lemma SignIsExtracted(sign: Sign, u: seq<byte>)
    requires u != [] && u[0] != MINUS && u[0] != PLUS
    ensures ExtractSign(SignSpelling(sign) + u) == (sign.Minus?, u)
  {
    var s := SignSpelling(sign) + u;
    if sign == NoSign {
      assert s == u;
    } else {
      assert s[1..] == u;
    }
  }

  lemma UnsignedHasNoSign(base: int, n: Numeral)
    requires ValidBase(base) && n.WellFormed(base)
    ensures n.Unsigned() != [] && n.Unsigned()[0] != MINUS && n.Unsigned()[0] != PLUS
  {
    assert DigitValue(n.digits[0]) < 36 || n.base == 36;
  }

  lemma BaseIsExtracted(base: int, n: Numeral)
    requires ValidBase(base) && n.WellFormed(base)
    ensures var s := n.Unsigned();
      ExtractBase(s, base).1 == n.digits
      && (ExtractBase(s, base).0 == n.base || (n.digits == [ZERO] && ExtractBase(s, base).0 == 10))
  {
    var s := n.Unsigned();
    if n.prefix == NoPrefix {
      assert s == n.digits;
      if |s| >= 2 {
        assert DigitValue(s[1]) < n.base;
      }
    } else {
      assert s[2..] == n.digits;
    }
  }

  /** And what it strips off can always be put back. */
  function Rebuilt(s: seq<byte>, base: int): Numeral
    requires ValidBase(base)
  {
    var (negative, rest) := ExtractSign(s);
    var (b, digits) := ExtractBase(rest, base);
    Numeral(if negative then Minus else if s != [] && s[0] == PLUS then Plus else NoSign,
            if digits == rest then NoPrefix else if rest[1] == LOWER_X then LowerHex else UpperHex,
            if base == 0 && rest == [ZERO] then 8 else b,
            digits)
  }

  lemma RebuiltSpells(s: seq<byte>, base: int)
    requires ValidBase(base)
    ensures Rebuilt(s, base).Spelling() == s
  {
    var (negative, rest) := ExtractSign(s);
    var (b, digits) := ExtractBase(rest, base);
    if digits != rest {
      assert rest == rest[..2] + digits;
    }
  }

  lemma RebuiltIsNumeral(s: seq<byte>, base: int)
    requires ValidBase(base)
    ensures var (_, rest) := ExtractSign(s); var (b, digits) := ExtractBase(rest, base);
      digits != [] && AreDigits(digits, b) ==> Rebuilt(s, base).WellFormed(base)
  {
  }

  lemma {:induction false} ValueGrows(s: seq<byte>, n: nat, base: nat)
    requires n <= |s| && base >= 1
    ensures DigitsValue(s[..n], base) <= DigitsValue(s, base)
    decreases |s|
  {
    if n < |s| {
      var m := |s| - 1;
      ValueGrows(s[..m], n, base);
      assert s[..m][..n] == s[..n];
      var v := DigitsValue(s[..m], base);
      ScaleMonotone(1, base, v);
      assert v * base == base * v && 1 * v == v;
    } else {
      assert s[..n] == s;
    }
  }

  lemma ValueStep(s: seq<byte>, i: nat, base: nat)
    requires i < |s|
    ensures DigitsValue(s[..i + 1], base) == DigitsValue(s[..i], base) * base + DigitValue(s[i])
  {
    assert s[..i + 1][..i] == s[..i];
  }

  /** C++ integer division, toward zero, of a limit by a base. */
  function Quotient(limit: int, base: int): int
    requires base >= 2
  {
    if limit >= 0 then limit / base else -(-limit / base)
  }

  /** The division test guards the product exactly, and is in range itself. */
  lemma ProductTestExact(max: int, n: int, base: int)
    requires 2 <= base && 0 <= n <= max
    ensures 0 <= Quotient(max, base) <= max
    ensures Quotient(max, base) < n ==> n * base > max
    ensures Quotient(max, base) >= n ==> 0 <= n * base <= max
  {
    var q := max / base;
    assert max == q * base + max % base;
    assert q <= q * base by { ScaleMonotone(1, base, q); assert q * base == base * q; }
    if q < n {
      ScaleMonotone(q + 1, n, base);
      assert (q + 1) * base == q * base + base;
    } else {
      ScaleMonotone(n, q, base);
      ScaleMonotone(0, n, base);
    }
  }

  /** Both tests together let the next value through exactly when it fits the type. */
  lemma NextValue(str: seq<byte>, i: nat, base: int, max: int)
    requires 2 <= base && i < |str| && DigitsValue(str[..i], base) <= max
    ensures var n := DigitsValue(str[..i], base); var digit := DigitValue(str[i]); var q := Quotient(max, base);
      && 0 <= q <= max
      && (q < n ==> DigitsValue(str, base) > max)
      && (q >= n ==> 0 <= n * base <= max)
      && (q >= n && max - n * base < digit ==> DigitsValue(str, base) > max)
      && DigitsValue(str[..i + 1], base) == n * base + digit
  {
    hide DigitsValue, Quotient, DigitValue;
    ProductTestExact(max, DigitsValue(str[..i], base), base);
    ValueStep(str, i, base);
    ValueGrows(str, i + 1, base);
  }

  /** The two digit loops; every product and sum they form is in the range of the type. */
  method AccumulatePositive(str: seq<byte>, base: int, t: Limits) returns (r: ParseResult)
    requires t.Valid() && 2 <= base <= 36
    ensures r.Parsed? <==> AreDigits(str, base) && DigitsValue(str, base) <= t.max
    ensures r.Parsed? ==> r.value == DigitsValue(str, base)
    ensures r.BadDigit? || r.Overflow? || r.Parsed?
  {
    hide DigitsValue, Quotient, DigitValue;
    var n := 0;
    assert str[..0] == [];
    NoDigitsNoValue(base);
    for i := 0 to |str|
      invariant 0 <= n <= t.max && n == DigitsValue(str[..i], base)
      invariant AreDigits(str[..i], base)
    {
      var digit := DigitValue(str[i]);
      assert t.Holds(digit);
      if digit >= base {
        return BadDigit(i);
      }
      NextValue(str, i, base, t.max);
      if Quotient(t.max, base) < n {
        return Overflow;
      }
      assert t.Holds(n * base) && t.Holds(t.max - n * base);
      if t.max - n * base < digit {
        return Overflow;
      }
      n := n * base;
      n := n + digit;
      assert t.Holds(n);
      DigitsExtend(str, i, base);
    }
    assert str[..|str|] == str;
    r := Parsed(n);
  }

  method AccumulateNegative(str: seq<byte>, base: int, t: Limits) returns (r: ParseResult)
    requires t.Valid() && t.Signed() && 2 <= base <= 36
    ensures r.Parsed? <==> AreDigits(str, base) && t.min <= -(DigitsValue(str, base) as int)
    ensures r.Parsed? ==> r.value == -(DigitsValue(str, base) as int)
    ensures r.BadDigit? || r.Underflow? || r.Parsed?
  {
    hide DigitsValue, Quotient, DigitValue;
    var n := 0;
    assert str[..0] == [];
    NoDigitsNoValue(base);
    for i := 0 to |str|
      invariant t.min <= n <= 0 && n == -(DigitsValue(str[..i], base) as int)
      invariant AreDigits(str[..i], base)
    {
      var digit := DigitValue(str[i]);
      assert t.Holds(digit) && t.Holds(-(digit as int));
      if digit >= base {
        return BadDigit(i);
      }
      NextValue(str, i, base, -t.min);
      NegatedProduct(n, base);
      NegatedQuotient(t.min, base);
      if Quotient(t.min, base) > n {
        return Underflow;
      }
      assert t.Holds(n * base) && t.Holds(t.min - n * base);
      if t.min - n * base > -(digit as int) {
        return Underflow;
      }
      n := n * base;
      n := n - digit;
      assert t.Holds(n);
      DigitsExtend(str, i, base);
    }
    assert str[..|str|] == str;
    r := Parsed(n);
  }

  lemma DigitsExtend(str: seq<byte>, i: nat, base: int)
    requires i < |str| && AreDigits(str[..i], base) && DigitValue(str[i]) < base
    ensures AreDigits(str[..i + 1], base)
  {
    assert forall j :: 0 <= j < i ==> str[..i + 1][j] == str[..i][j];
  }

  lemma NoDigitsNoValue(base: nat)
    ensures DigitsValue([], base) == 0
  {
  }

  lemma NegatedProduct(n: int, base: int)
    ensures (-n) * base == -(n * base)
  {
  }

  lemma NegatedQuotient(limit: int, base: int)
    requires limit < 0 && base >= 2
    ensures Quotient(limit, base) == -Quotient(-limit, base)
  {
  }

  /** Succeeds exactly on the numerals whose value the type holds, and returns that value. */
  method ParseNumberFromString(s: seq<byte>, base: int, t: Limits) returns (r: ParseResult)
    requires t.Valid()
    ensures r == InvalidBase <==> base == 1 || base < 0 || base > 36
    ensures r.Parsed? ==> exists n :: Fits(s, base, t, n)
    ensures r != InvalidBase ==> forall n :: Fits(s, base, t, n) ==> r == Parsed(n.Meaning())
  {
    if base == 1 || base < 0 || base > 36 {
      return InvalidBase;
    }
    hide DigitsValue, AreDigits, Fits, Rebuilt, ExtractSign, ExtractBase, Numeral.Meaning;
    var (negative, rest) := ExtractSign(s);
    var (b, str) := ExtractBase(rest, base);
    FitsByDigits(s, base, t);
    if str == [] {
      r := NoDigits;
    } else if negative {
      if t.Signed() {
        r := AccumulateNegative(str, b, t);
      } else {
        r := NegativeValue;
      }
    } else {
      r := AccumulatePositive(str, b, t);
    }
  }

  lemma DigitsOf(base: int, n: Numeral)
    requires n.WellFormed(base)
    ensures n.digits != [] && AreDigits(n.digits, n.base) && AreDigits([ZERO], 10)
  {
  }

  lemma LoneZero(a: nat, b: nat)
    ensures DigitsValue([ZERO], a) == DigitsValue([ZERO], b) == 0
  {
  }

  /** A numeral that fits is one whose extracted digits are digits and fit. */
  lemma FitsByDigits(s: seq<byte>, base: int, t: Limits)
    requires ValidBase(base) && t.Valid()
    ensures var (negative, rest) := ExtractSign(s); var (b, str) := ExtractBase(rest, base);
      var v := if negative then -(DigitsValue(str, b) as int) else DigitsValue(str, b);
      var fits := str != [] && AreDigits(str, b) && (negative ==> t.Signed()) && t.Holds(v);
      && (forall n :: Fits(s, base, t, n) ==> fits && n.Meaning() == v)
      && (fits ==> Fits(s, base, t, Rebuilt(s, base)))
  {
    hide ExtractSign, ExtractBase, DigitsValue, AreDigits, Numeral.WellFormed, Numeral.Spelling;
    var (negative, rest) := ExtractSign(s);
    var (b, str) := ExtractBase(rest, base);
    forall n | Fits(s, base, t, n)
      ensures str == n.digits && str != [] && AreDigits(str, b) && negative == n.sign.Minus?
      ensures DigitsValue(str, b) == DigitsValue(n.digits, n.base)
    {
      NumeralIsExtracted(base, n);
      LoneZero(b, n.base);
      DigitsOf(base, n);
    }
    RebuiltSpells(s, base);
    RebuiltIsNumeral(s, base);
    RebuiltMeans(s, base);
  }

  lemma RebuiltMeans(s: seq<byte>, base: int)
    requires ValidBase(base)
    ensures var (negative, rest) := ExtractSign(s); var (b, str) := ExtractBase(rest, base); var n := Rebuilt(s, base);
      && n.sign.Minus? == negative
      && n.Meaning() == if negative then -(DigitsValue(str, b) as int) else DigitsValue(str, b)
  {
    hide DigitsValue;
    var (negative, rest) := ExtractSign(s);
    LoneZero(ExtractBase(rest, base).0, 8);
  }

  // The characters a numeral is made of.

  const LOWER: string := "0123456789abcdefghijklmnopqrstuvwxyz"
  const UPPER: string := "0123456789ABCDEFGHIJKLMNOPQRSTUVWXYZ"

  /** The bytes of an ASCII text. */
  function Ascii(s: string): (r: seq<byte>)
    requires forall i :: 0 <= i < |s| ==> s[i] as int < 128
    ensures |r| == |s| && forall i :: 0 <= i < |s| ==> r[i] == s[i] as int
  {
    seq(|s|, i requires 0 <= i < |s| => s[i] as int)
  }

  lemma AlphabetAt(i: nat)
    requires i < 36
    ensures |LOWER| == |UPPER| == 36
    ensures LOWER[i] as int == if i < 10 then 48 + i else 87 + i
    ensures UPPER[i] as int == if i < 10 then 48 + i else 55 + i
  {
  }

  /** A byte is the digit i exactly when it is the i-th letter of the alphabet, in either case. */
  lemma DigitByAlphabet(c: byte, i: nat)
    requires i < 36
    ensures |LOWER| == |UPPER| == 36
    ensures DigitValue(c) == i <==> c == LOWER[i] as int || c == UPPER[i] as int
  {
    AlphabetAt(i);
  }

  /** The i-th letter, alone, parses to i in every base above i. */
  method ParseLetter(i: nat, upper: bool, base: int, t: Limits) returns (r: ParseResult)
    requires i < base <= 36 && 2 <= base && t.Valid()
    ensures r == Parsed(i)
  {
    AlphabetAt(i);
    var c: byte := if upper then UPPER[i] as int else LOWER[i] as int;
    DigitByAlphabet(c, i);
    r := ParseNumberFromString([c], base, t);
    OneDigit(c, base, t);
  }

  lemma OneDigit(c: byte, base: int, t: Limits)
    requires 2 <= base <= 36 && DigitValue(c) < base && t.Valid()
    ensures var n := Numeral(NoSign, NoPrefix, base, [c]); Fits([c], base, t, n) && n.Meaning() == DigitValue(c)
  {
    hide DigitsValue, DigitValue;
    var n := Numeral(NoSign, NoPrefix, base, [c]);
    assert n.Spelling() == [c];
    AppendDigit([], c, base);
    NoDigitsNoValue(base);
    assert [] + [c] == [c] && 0 * base == 0;
  }

  lemma AppendDigit(s: seq<byte>, c: byte, base: nat)
    ensures DigitsValue(s + [c], base) == DigitsValue(s, base) * base + DigitValue(c)
  {
    assert (s + [c])[..|s|] == s;
  }

  /** A numeral is spelled as the signs, the prefixes and letters below its base. */
  lemma SpelledOut(base: int, n: Numeral)
    requires ValidBase(base) && n.WellFormed(base)
    ensures n.Spelling()
         == Ascii(match n.sign case NoSign => "" case Minus => "-" case Plus => "+")
            + Ascii(match n.prefix case NoPrefix => "" case LowerHex => "0x" case UpperHex => "0X")
            + n.digits
    ensures |LOWER| == |UPPER| == 36 && 2 <= n.base <= 36
    ensures forall k :: 0 <= k < |n.digits| ==>
      exists i :: 0 <= i < n.base && (n.digits[k] == LOWER[i] as int || n.digits[k] == UPPER[i] as int)
  {
    AlphabetAt(0);
    forall k | 0 <= k < |n.digits|
      ensures exists i :: 0 <= i < n.base && (n.digits[k] == LOWER[i] as int || n.digits[k] == UPPER[i] as int)
    {
      var i := DigitValue(n.digits[k]);
      DigitByAlphabet(n.digits[k], i);
    }
  }

  /** With base 0: hexadecimal after 0x, octal after 0, decimal otherwise. */
  method ParseExamples(t: Limits) returns (hexadecimal: ParseResult, octal: ParseResult, decimal: ParseResult)
    requires t.Valid() && t.min < 0
    ensures hexadecimal == Parsed(-31) && octal == Parsed(8) && decimal == Parsed(10)
  {
    hexadecimal := ParseNumberFromString(Ascii("-0x1F"), 0, t);
    octal := ParseNumberFromString(Ascii("010"), 0, t);
    decimal := ParseNumberFromString(Ascii("+10"), 0, t);
    HexExample(t);
    OctalExample(t);
    DecimalExample(t);
  }

  lemma HexExample(t: Limits)
    requires t.Valid() && t.min < 0
    ensures var n := Numeral(Minus, LowerHex, 16, [49, 70]); Fits(Ascii("-0x1F"), 0, t, n) && n.Meaning() == -31
  {
    hide DigitsValue;
    TwoDigits(49, 70, 16);
    assert Ascii("-0x1F") == [45] + ([48, 120] + [49, 70]);
  }

  lemma OctalExample(t: Limits)
    requires t.Valid() && t.min < 0
    ensures var n := Numeral(NoSign, NoPrefix, 8, [48, 49, 48]); Fits(Ascii("010"), 0, t, n) && n.Meaning() == 8
  {
    hide DigitsValue;
    TwoDigits(48, 49, 8);
    AppendDigit([48, 49], 48, 8);
    assert [48, 49] + [48] == [48, 49, 48];
    assert Ascii("010") == [] + ([] + [48, 49, 48]);
  }

  lemma DecimalExample(t: Limits)
    requires t.Valid() && t.min < 0
    ensures var n := Numeral(Plus, NoPrefix, 10, [49, 48]); Fits(Ascii("+10"), 0, t, n) && n.Meaning() == 10
  {
    hide DigitsValue;
    TwoDigits(49, 48, 10);
    assert Ascii("+10") == [43] + ([] + [49, 48]);
  }

  lemma TwoDigits(a: byte, b: byte, base: nat)
    ensures DigitsValue([a, b], base) == DigitValue(a) * base + DigitValue(b)
  {
    hide DigitsValue, DigitValue;
    NoDigitsNoValue(base);
    AppendDigit([], a, base);
    AppendDigit([a], b, base);
    assert [] + [a] == [a] && [a] + [b] == [a, b] && 0 * base == 0;
  }
}
