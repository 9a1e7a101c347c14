/**
 Exact comparison across int, long and double. A double is given by its 64 bits
 (binary64 of IEEE 754) and stands for a multiple of 2^-1074, an infinity or NaN.
 */
module CompareNumbers {
  import opened Bytes
  import opened Arithmetic

  function Pow2(k: nat): (r: nat)
    ensures r >= 1
  {
    if k == 0 then 1 else 2 * Pow2(k - 1)
  }

  /** How many units of 2^-1074 make one. */
  function Unit(): (u: nat)
    ensures u >= 1
  {
    Pow2(1074)
  }

  const TWO_52: int := 0x10_0000_0000_0000
  const TWO_53: int := 0x20_0000_0000_0000
  const TWO_63: int := 0x8000_0000_0000_0000

  /** The value of a double; zeros of either sign and NaNs of any payload are one value. */
  datatype Double = NaN | NegInf | Finite(units: int) | PosInf

  function DecodeDouble(bits: uint64): Double {
    var negative := bits >= TWO_63;
    var exponent := bits / TWO_52 % 2048;
    var fraction := bits % TWO_52;
    if exponent == 2047 then
      if fraction != 0 then NaN else if negative then NegInf else PosInf
    else
      var magnitude := if exponent == 0 then fraction else (TWO_52 + fraction) * Pow2(exponent - 1);
      Finite(if negative then -magnitude else magnitude)
  }

  // The operators of C++ on doubles.

  predicate Eq(a: Double, b: Double) { !a.NaN? && a == b }

  predicate Lt(a: Double, b: Double) {
    match a
    case NaN => false
    case NegInf => !b.NaN? && !b.NegInf?
    case Finite(x) => b.PosInf? || (b.Finite? && x < b.units)
    case PosInf => false
  }

  /** A long that converts without rounding. */
  function FromLong(n: int): Double { Finite(n * Unit()) }

  /** (long long) d, toward zero. */
  function Truncate(d: Double): int
    requires d.Finite?
  {
    if d.units >= 0 then d.units / Unit() else -(-d.units / Unit())
  }

  function CompareLongs(lhs: int, rhs: int): int {
    if lhs == rhs then 0 else if lhs < rhs then -1 else 1
  }

  function CompareDoubles(lhs: Double, rhs: Double): int {
    if Eq(lhs, rhs) then 0
    else if Lt(lhs, rhs) then -1
    else if Lt(rhs, lhs) then 1
    else if lhs.NaN? then (if rhs.NaN? then 0 else -1)
    else 1
  }

  function CompareLongToDouble(lhs: int64, rhs: Double): int {
    if rhs.NaN? then 1
    else if -TWO_53 <= lhs <= TWO_53 then CompareDoubles(FromLong(lhs), rhs)
    else if !Lt(rhs, FromLong(TWO_63)) then -1
    else if Lt(rhs, FromLong(-TWO_63)) then 1
    else if !rhs.Finite? then 0
    else CompareLongs(lhs, Truncate(rhs))
  }

  function CompareDoubleToLong(lhs: Double, rhs: int64): int {
    -CompareLongToDouble(rhs, lhs)
  }

  /** The order of the numbers themselves, with NaN below everything. */
  function Order(a: Double, b: Double): (r: int)
    ensures -1 <= r <= 1
    ensures r == 0 <==> a == b
  {
    if a.Finite? && b.Finite? then CompareLongs(a.units, b.units)
    else CompareLongs(Place(a), Place(b))
  }

  function Place(a: Double): int {
    match a case NaN => 0 case NegInf => 1 case Finite(_) => 2 case PosInf => 3
  }

  lemma CompareDoublesExact(a: Double, b: Double)
    ensures CompareDoubles(a, b) == Order(a, b)
  {
  }

  lemma {:induction false} Pow2Sum(j: nat, k: nat)
    ensures Pow2(j + k) == Pow2(j) * Pow2(k)
    decreases k
  {
    if k > 0 {
      Pow2Sum(j, k - 1);
      assert Pow2(j + k) == 2 * Pow2(j + (k - 1));
    }
  }

  /** A double is whole, or less than 2^53 in magnitude. */
  lemma FractionOnlyBelow53Bits(bits: uint64)
    requires DecodeDouble(bits).Finite?
    ensures var x := DecodeDouble(bits).units; var u := Unit();
      (exists k: int :: x == k * u) || -(TWO_53 * u) < x < TWO_53 * u
  {
    hide Pow2;
    var u := Unit();
    var x := DecodeDouble(bits).units;
    var exponent := bits / TWO_52 % 2048;
    var m := TWO_52 + bits % TWO_52;
    if exponent == 0 {
      ScaleBound(TWO_52, u);
    } else if exponent - 1 >= 1074 {
      WholeMagnitude(m, exponent - 1);
      var k := m * Pow2(exponent - 1 - 1074);
      assert x == k * u || x == (-k) * u;
    } else {
      SmallMagnitude(m, exponent - 1);
    }
  }

  lemma WholeMagnitude(m: nat, e: nat)
    requires e >= 1074
    ensures m * Pow2(e) == m * Pow2(e - 1074) * Unit()
  {
    hide Pow2;
    Pow2Sum(e - 1074, 1074);
    var p, q := Pow2(e - 1074), Pow2(1074);
    assert m * (p * q) == (m * p) * q;
  }

  lemma SmallMagnitude(m: nat, e: nat)
    requires e <= 1074 && m < TWO_53
    ensures m * Pow2(e) < TWO_53 * Unit()
  {
    hide Pow2;
    Pow2Sum(e, 1074 - e);
    var p, q := Pow2(e), Pow2(1074 - e);
    ScaleBound(p, q);
    assert p <= Unit();
    assert m * p <= m * Unit();
    ScaleOrder(m, TWO_53, Unit());
  }

  /** The truncation of a double, and where it lies. */
  lemma TruncateWhole(k: int, u: int)
    requires u >= 1
    ensures k >= 0 ==> (k * u) / u == k
    ensures k < 0 ==> -((-(k * u)) / u) == k
  {
    if k >= 0 {
      DivideExact(k, u);
    } else {
      DivideExact(-k, u);
      assert -(k * u) == (-k) * u;
    }
  }

  lemma TruncateSmall(x: int, u: int, bound: int)
    requires u >= 1 && bound >= 0 && -(bound * u) < x < bound * u
    ensures x >= 0 ==> 0 <= x / u < bound
    ensures x < 0 ==> -bound < -((-x) / u) <= 0
  {
    if x >= 0 {
      DivideBelow(x, u, bound);
    } else {
      DivideBelow(-x, u, bound);
    }
  }

  /** compareLongToDouble is the exact order for every long and every double. */
  lemma CompareLongToDoubleExact(lhs: int64, bits: uint64)
    ensures CompareLongToDouble(lhs, DecodeDouble(bits)) == Order(FromLong(lhs), DecodeDouble(bits))
  {
    hide Unit, DecodeDouble;
    var rhs := DecodeDouble(bits);
    var u := Unit();
    CompareDoublesExact(FromLong(lhs), rhs);
    if (lhs > TWO_53 || lhs < -TWO_53) && rhs.Finite? {
      ScaleOrder(lhs, TWO_63, u);
      ScaleOrder(lhs, -TWO_63, u);
      if -(TWO_63 * u) <= rhs.units < TWO_63 * u {
        FractionOnlyBelow53Bits(bits);
        if k: int :| rhs.units == k * u {
          TruncateWhole(k, u);
          ScaleOrder(lhs, k, u);
          ScaleOrder(k, lhs, u);
          ScaleOrder(k, 0, u);
        } else {
          TruncateSmall(rhs.units, u, TWO_53);
          ScaleOrder(lhs, -TWO_53, u);
          ScaleOrder(TWO_53, lhs, u);
        }
      }
    }
  }

  function Assemble(negative: bool, exponent: nat, fraction: nat): (bits: uint64)
    requires exponent < 2048 && fraction < TWO_52
  {
    (if negative then TWO_63 else 0) + exponent * TWO_52 + fraction
  }

  lemma DecodeAssembled(negative: bool, exponent: nat, fraction: nat)
    requires exponent < 2047 && fraction < TWO_52
    ensures var m := if exponent == 0 then fraction else (TWO_52 + fraction) * Pow2(exponent - 1);
      DecodeDouble(Assemble(negative, exponent, fraction)) == Finite(if negative then -m else m)
  {
    hide Pow2;
    var bits := Assemble(negative, exponent, fraction);
    assert bits == TWO_52 * ((if negative then 2048 else 0) + exponent) + fraction;
    assert bits / TWO_52 == (if negative then 2048 else 0) + exponent;
    assert bits % TWO_52 == fraction;
  }

  /** Every m * 2^e with m below 2^53 and e in range is a double: so are the longs up to 2^53. */
  lemma {:induction false} FiniteRepresentable(m: nat, e: nat, negative: bool) returns (bits: uint64)
    requires m < TWO_53 && e <= 2045
    ensures DecodeDouble(bits) == Finite(if negative then -(m * Pow2(e)) else m * Pow2(e))
    decreases e
  {
    hide DecodeDouble;
    if m >= TWO_52 {
      bits := Assemble(negative, e + 1, m - TWO_52);
      DecodeAssembled(negative, e + 1, m - TWO_52);
    } else if e == 0 {
      bits := Assemble(negative, 0, m);
      DecodeAssembled(negative, 0, m);
    } else {
      bits := FiniteRepresentable(2 * m, e - 1, negative);
      assert 2 * m * Pow2(e - 1) == m * Pow2(e);
    }
  }

  lemma LongRepresentable(n: int) returns (bits: uint64)
    requires -TWO_53 <= n <= TWO_53
    ensures DecodeDouble(bits) == FromLong(n)
  {
    hide Pow2, DecodeDouble;
    var m := if n < 0 then -n else n;
    if m == TWO_53 {
      bits := FiniteRepresentable(TWO_52, 1075, n < 0);
      Pow2Sum(1074, 1);
      assert Pow2(1) == 2 by { Pow2Of1(); }
      assert TWO_52 * Pow2(1075) == TWO_53 * Unit();
    } else {
      bits := FiniteRepresentable(m, 1074, n < 0);
    }
  }

  lemma Pow2Of1()
    ensures Pow2(1) == 2
  {
  }

  /** The bit patterns of the infinities, of one and of minus one, and a NaN. */
  lemma KnownBits()
    ensures DecodeDouble(0x7ff0_0000_0000_0000) == PosInf && DecodeDouble(0xfff0_0000_0000_0000) == NegInf
    ensures DecodeDouble(0x3ff0_0000_0000_0000) == FromLong(1) && DecodeDouble(0xbff0_0000_0000_0000) == FromLong(-1)
    ensures DecodeDouble(0x7ff8_0000_0000_0000) == NaN && DecodeDouble(0x8000_0000_0000_0000) == FromLong(0)
  {
    hide Pow2, Unit;
    OneByPowers();
  }

  lemma OneByPowers()
    ensures TWO_52 * Pow2(1022) == Unit() && 0 * Unit() == 0
  {
    hide Pow2;
    assert Pow2(52) == TWO_52 by { PowersTo52(); }
    Pow2Sum(52, 1022);
  }

  lemma PowersTo52()
    ensures Pow2(52) == TWO_52
  {
    assert Pow2(13) == 8192;
    hide Pow2;
    Pow2Sum(13, 13);
    Pow2Sum(26, 26);
  }

  /** Every finite double lies between the infinities, and NaN below all. */
  lemma InfinitiesBound(x: Double, bits: uint64)
    requires DecodeDouble(bits).Finite?
    ensures Order(NegInf, DecodeDouble(bits)) == -1 && Order(DecodeDouble(bits), PosInf) == -1
    ensures x != NaN ==> Order(NaN, x) == -1
  {
  }
}
