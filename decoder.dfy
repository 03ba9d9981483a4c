/**
 Decoding one BF-117 frame into a reading.

 Bytes 7, 6, 5 and 4 hold the four display digits, most significant first; the
 marker bit 0x80 of a digit byte places the decimal point in front of that
 digit. Bit 0x80 of byte 8 is the minus sign. Bytes 17 and 18 select the
 multiplier prefix and bytes 18 and 19 the unit, each by a first-match-wins
 chain of bit tests.

 A reading is kept exact: a sign, an integer mantissa and a power of ten.
 */
module Decoder {
  import opened Digits

  /** The highest byte index the decoder reads is 19. */
  const MinFrameLength: nat := 20
  const SignByte: nat := 8

  /** Pure power of ten. */
  function Pow10(n: nat): (p: nat)
    ensures p >= 1
  {
    if n == 0 then 1 else 10 * Pow10(n - 1)
  }

  predicate Marked(b: bv8) {
    b & MarkerBit != 0
  }

  /** Index of the `k`-th digit byte visited: the decoder visits bytes 7, 6, 5, 4 in that order. */
  function DigitByte(k: nat): (i: nat)
    requires k < 4
    ensures 4 <= i <= 7
  {
    7 - k
  }

  /** The `k`-th visited digit byte carries a decimal-point marker. */
  predicate PointAt(data: seq<bv8>, k: nat)
    requires |data| >= MinFrameLength && k < 4
  {
    Marked(data[DigitByte(k)])
  }

  /** The first visited position at or after `k` with a decimal-point marker, or 4 when there is none. */
  function FirstPointFrom(data: seq<bv8>, k: nat): (j: nat)
    requires |data| >= MinFrameLength && k <= 4
    decreases 4 - k
    ensures k <= j <= 4
    ensures j < 4 ==> PointAt(data, j)
    ensures forall i :: k <= i < j ==> !PointAt(data, i)
  {
    if k == 4 then 4
    else if PointAt(data, k) then k
    else FirstPointFrom(data, k + 1)
  }

  function FirstPoint(data: seq<bv8>): nat
    requires |data| >= MinFrameLength
  {
    FirstPointFrom(data, 0)
  }

  /**
   The power of ten the decimal point contributes. The point is sticky: every
   digit from the first marked one on counts as a fraction digit.
   */
  function DecimalExponent(data: seq<bv8>): (e: int)
    requires |data| >= MinFrameLength
    ensures -4 <= e <= 0
    ensures e == 0 <==> forall k :: 0 <= k < 4 ==> !PointAt(data, k)
    ensures e < 0 ==> PointAt(data, 4 + e) && forall k :: 0 <= k < 4 + e ==> !PointAt(data, k)
  {
    FirstPoint(data) - 4
  }

  /** The value of the first `k` visited digits, read as a decimal number. */
  function LeadingValue(data: seq<bv8>, k: nat): nat
    requires |data| >= MinFrameLength && k <= 4
  {
    if k == 0 then 0 else 10 * LeadingValue(data, k - 1) + Digit(data[DigitByte(k - 1)])
  }

  /** The four display digits as an integer, byte 7 the thousands. */
  function Mantissa(data: seq<bv8>): (m: nat)
    requires |data| >= MinFrameLength
    ensures m <= 9999
    ensures m == 1000 * Digit(data[7]) + 100 * Digit(data[6]) + 10 * Digit(data[5]) + Digit(data[4])
  {
    assert LeadingValue(data, 1) == Digit(data[7]);
    assert LeadingValue(data, 2) == 10 * Digit(data[7]) + Digit(data[6]);
    assert LeadingValue(data, 3) == 100 * Digit(data[7]) + 10 * Digit(data[6]) + Digit(data[5]);
    LeadingValue(data, 4)
  }

  /** Multiplier prefixes, in the order the decoder tests them. */
  datatype Prefix = Nano | Micro | Milli | Kilo | Mega | NoPrefix {

    /** Position in the test order; NoPrefix comes after every real prefix. */
    function Rank(): nat {
      match this
      case Nano => 0
      case Micro => 1
      case Milli => 2
      case Kilo => 3
      case Mega => 4
      case NoPrefix => 5
    }

    function Symbol(): string {
      match this
      case Nano => "n"
      case Micro => "µ"
      case Milli => "m"
      case Kilo => "k"
      case Mega => "M"
      case NoPrefix => ""
    }

    /** Power of ten the prefix adds; nano and micro keep the meter's own -12 and -9. */
    function Shift(): (s: int)
      ensures -12 <= s <= 6
      ensures NoPrefix? <==> s == 0
    {
      match this
      case Nano => -12
      case Micro => -9
      case Milli => -3
      case Kilo => 3
      case Mega => 6
      case NoPrefix => 0
    }
  }

  /** The indicator bits of each prefix in bytes 17 and 18. */
  predicate PrefixIndicated(p: Prefix, b17: bv8, b18: bv8) {
    match p
    case Nano => b18 & 0x40 != 0
    case Micro => b18 & 0x20 != 0 || b17 & 0x01 != 0
    case Milli => b17 & 0x02 != 0
    case Kilo => b17 & 0x20 != 0
    case Mega => b17 & 0x10 != 0
    case NoPrefix => false
  }

  /** The multiplier prefix: the earliest prefix in test order whose bit is set, or none. */
  function SelectPrefix(b17: bv8, b18: bv8): (p: Prefix)
    ensures p != NoPrefix ==> PrefixIndicated(p, b17, b18)
    ensures forall q: Prefix :: q.Rank() < p.Rank() ==> !PrefixIndicated(q, b17, b18)
  {
    if b18 & 0x40 != 0 then Nano
    else if b18 & 0x20 != 0 || b17 & 0x01 != 0 then Micro
    else if b17 & 0x02 != 0 then Milli
    else if b17 & 0x20 != 0 then Kilo
    else if b17 & 0x10 != 0 then Mega
    else NoPrefix
  }

  /** Units, in the order the decoder tests them. */
  datatype Unit = Farad | Fahrenheit | Celsius | Hertz | Percent | Volt | Ampere | NoUnit {

    /** Position in the test order; NoUnit comes after every real unit. */
    function Rank(): nat {
      match this
      case Farad => 0
      case Fahrenheit => 1
      case Celsius => 2
      case Hertz => 3
      case Percent => 4
      case Volt => 5
      case Ampere => 6
      case NoUnit => 7
    }

    function Symbol(): string {
      match this
      case Farad => "F"
      case Fahrenheit => "°F"
      case Celsius => "°C"
      case Hertz => "Hz"
      case Percent => "%"
      case Volt => "V"
      case Ampere => "A"
      case NoUnit => ""
    }
  }

  /** The indicator bit of each unit in bytes 18 and 19. */
  predicate UnitIndicated(u: Unit, b18: bv8, b19: bv8) {
    match u
    case Farad => b18 & 0x80 != 0
    case Fahrenheit => b18 & 0x02 != 0
    case Celsius => b18 & 0x01 != 0
    case Hertz => b19 & 0x80 != 0
    case Percent => b19 & 0x40 != 0
    case Volt => b19 & 0x08 != 0
    case Ampere => b19 & 0x04 != 0
    case NoUnit => false
  }

  /** The unit: the earliest unit in test order whose bit is set, or none. */
  function SelectUnit(b18: bv8, b19: bv8): (u: Unit)
    ensures u != NoUnit ==> UnitIndicated(u, b18, b19)
    ensures forall v: Unit :: v.Rank() < u.Rank() ==> !UnitIndicated(v, b18, b19)
  {
    if b18 & 0x80 != 0 then Farad
    else if b18 & 0x02 != 0 then Fahrenheit
    else if b18 & 0x01 != 0 then Celsius
    else if b19 & 0x80 != 0 then Hertz
    else if b19 & 0x40 != 0 then Percent
    else if b19 & 0x08 != 0 then Volt
    else if b19 & 0x04 != 0 then Ampere
    else NoUnit
  }

  /** A decoded reading: (-1 if negative) * mantissa * 10^exponent, shown with prefix and unit. */
  datatype Reading = Reading(negative: bool, mantissa: nat, exponent: int, prefix: Prefix, unit: Unit) {

    /** The unit text the meter shows: the prefix symbol followed by the unit symbol. */
    function Label(): string {
      prefix.Symbol() + unit.Symbol()
    }

    /** The absolute value mantissa * 10^exponent, kept exact. */
    function Magnitude(): (m: real)
      ensures m >= 0.0
      ensures m == 0.0 <==> mantissa == 0
    {
      if exponent >= 0 then (mantissa * Pow10(exponent)) as real
      else mantissa as real / Pow10(-exponent) as real
    }

    /** The exact value of the reading: the magnitude, negated when the sign bit was set. */
    function Value(): (v: real)
      ensures v < 0.0 <==> negative && mantissa > 0
      ensures v > 0.0 <==> !negative && mantissa > 0
    {
      if negative then -Magnitude() else Magnitude()
    }
  }

  /** The reading a frame encodes. */
  function Decode(data: seq<bv8>): (r: Reading)
    requires |data| >= MinFrameLength
    ensures r.mantissa <= 9999
    ensures -16 <= r.exponent <= 6
  {
    var p := SelectPrefix(data[17], data[18]);
    Reading(Marked(data[SignByte]), Mantissa(data), DecimalExponent(data) + p.Shift(), p, SelectUnit(data[18], data[19]))
  }

  /**
   The sign and the number on the display, step by step: the digits are read
   from the most significant one with a running value, a running power of ten
   and a flag recording that the decimal point has been passed.
   */
  method AssembleValue(data: seq<bv8>) returns (negative: bool, value: nat, power: int)
    requires |data| >= MinFrameLength
    ensures negative <==> Marked(data[SignByte])
    ensures value == Mantissa(data)
    ensures power == DecimalExponent(data)
  {
    negative := Marked(data[SignByte]);
    value, power := 0, 0;
    var decimal := false;
    ghost var first := FirstPoint(data);
    for k := 0 to 4
      invariant value == LeadingValue(data, k)
      invariant decimal <==> first < k
      invariant power == if decimal then first - k else 0
    {
      var d := DigitByte(k);
      assert PointAt(data, k) <==> Marked(data[d]);
      assert first == k ==> PointAt(data, k);
      assert first > k ==> !PointAt(data, k);
      if Marked(data[d]) || decimal {
        decimal := true;
        power := power - 1;
      }
      assert LeadingValue(data, k + 1) == 10 * value + Digit(data[d]);
      value := 10 * value + Digit(data[d]);
    }
  }

  /** Decodes a frame: the displayed number, then the multiplier prefix, which scales it, and the unit. */
  method DecodeFrame(data: seq<bv8>) returns (r: Reading)
    requires |data| >= MinFrameLength
    ensures r == Decode(data)
  {
    var negative, value, power := AssembleValue(data);
    var prefix := SelectPrefix(data[17], data[18]);
    power := power + prefix.Shift();
    var unit := SelectUnit(data[18], data[19]);
    r := Reading(negative, value, power, prefix, unit);
  }

  /** The first-match-wins choice is the only prefix that is indicated and has no indicated predecessor. */
  lemma PrefixChoiceUnique(p: Prefix, b17: bv8, b18: bv8)
    requires p != NoPrefix ==> PrefixIndicated(p, b17, b18)
    requires forall q: Prefix :: q.Rank() < p.Rank() ==> !PrefixIndicated(q, b17, b18)
    ensures p == SelectPrefix(b17, b18)
  {
  }

  /** The first-match-wins choice is the only unit that is indicated and has no indicated predecessor. */
  lemma UnitChoiceUnique(u: Unit, b18: bv8, b19: bv8)
    requires u != NoUnit ==> UnitIndicated(u, b18, b19)
    requires forall v: Unit :: v.Rank() < u.Rank() ==> !UnitIndicated(v, b18, b19)
    ensures u == SelectUnit(b18, b19)
  {
  }

  /** With both the volt and the ampere bit set, the unit is never ampere. */
  lemma VoltBeforeAmpere(b18: bv8, b19: bv8)
    requires UnitIndicated(Volt, b18, b19) && UnitIndicated(Ampere, b18, b19)
    ensures SelectUnit(b18, b19) != Ampere
    ensures (forall v: Unit :: v.Rank() < Volt.Rank() ==> !UnitIndicated(v, b18, b19)) ==> SelectUnit(b18, b19) == Volt
  {
  }

  /**
   The value depends on the number shown, not on how it is written: one more
   trailing zero digit with the decimal point one place further right gives
   the same value.
   */
  lemma ValueScale(r: Reading)
    ensures r.(mantissa := 10 * r.mantissa, exponent := r.exponent - 1).Value() == r.Value()
  {
    var s := r.(mantissa := 10 * r.mantissa, exponent := r.exponent - 1);
    if r.exponent >= 1 {
      WholeScale(r.mantissa, r.exponent - 1);
    } else if r.exponent == 0 {
      assert Pow10(1) == 10;
    } else {
      FractionScale(r.mantissa, -r.exponent);
    }
    assert s.Magnitude() == r.Magnitude();
  }

  lemma WholeScale(m: nat, e: nat)
    ensures (10 * m) * Pow10(e) == m * Pow10(e + 1)
  {
    assert Pow10(e + 1) == 10 * Pow10(e);
  }

  lemma FractionScale(m: nat, e: nat)
    ensures (10 * m) as real / Pow10(e + 1) as real == m as real / Pow10(e) as real
  {
    var a, q := m as real, Pow10(e) as real;
    assert Pow10(e + 1) as real == 10.0 * q;
    var x := a / q;
    assert x * q == a;
    assert x * (10.0 * q) == 10.0 * a;
  }


  /**
   Markers after the first one do not move the decimal point: two frames that
   agree on the digit bytes up to the first marked one have the same exponent.
   */
  lemma PointIsSticky(data: seq<bv8>, other: seq<bv8>)
    requires |data| >= MinFrameLength && |other| >= MinFrameLength
    requires FirstPoint(data) < 4
    requires forall k :: 0 <= k <= FirstPoint(data) ==> other[DigitByte(k)] == data[DigitByte(k)]
    ensures DecimalExponent(other) == DecimalExponent(data)
  {
  }

  /** Decoded values of the segment patterns of 1, 2, 3 and 4. */
  lemma SampleDigits()
    ensures Digit(0x06) == 1 && Digit(0x6b) == 2 && Digit(0x2f) == 3 && Digit(0x36) == 4
    ensures Digit(0x2f | MarkerBit) == 3
  {
    DigitOfSegment(1);
    DigitOfSegment(2);
    DigitOfSegment(3);
    DigitOfSegment(4);
  }

  /** Sign marker on byte 8 and the digits 1, 2, 3, 4 without a decimal point read -1234. */
  lemma SampleNegative(data: seq<bv8>)
    requires |data| >= MinFrameLength
    requires data[7] == 0x06 && data[6] == 0x6b && data[5] == 0x2f && data[4] == 0x36
    requires data[SignByte] == MarkerBit && data[17] == 0 && data[18] == 0 && data[19] == 0
    ensures Decode(data) == Reading(true, 1234, 0, NoPrefix, NoUnit)
    ensures Decode(data).Value() == -1234.0
  {
    SampleDigits();
    assert !PointAt(data, 0) && !PointAt(data, 1) && !PointAt(data, 2) && !PointAt(data, 3);
  }

  /** The same digits with the marker on the third digit byte (byte 5) read -12.34. */
  lemma SampleDecimal(data: seq<bv8>)
    requires |data| >= MinFrameLength
    requires data[7] == 0x06 && data[6] == 0x6b && data[5] == 0x2f | MarkerBit && data[4] == 0x36
    requires data[SignByte] == MarkerBit && data[17] == 0 && data[18] == 0 && data[19] == 0
    ensures Decode(data) == Reading(true, 1234, -2, NoPrefix, NoUnit)
  {
    assert Mantissa(data) == 1234 by {
      SampleDigits();
    }
    assert DecimalExponent(data) == -2 by {
      assert !PointAt(data, 0) && !PointAt(data, 1) && PointAt(data, 2);
    }
    assert SelectPrefix(data[17], data[18]) == NoPrefix;
    assert SelectUnit(data[18], data[19]) == NoUnit;
  }

  /** Four digits 1234 with exponent -2 and the sign set are the value -12.34. */
  lemma DecimalValue()
    ensures Reading(true, 1234, -2, NoPrefix, NoUnit).Value() == -12.34
  {
  }
}
