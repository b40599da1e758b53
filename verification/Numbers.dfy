/** Numbers of the two kinds that an attribute can hold, and how one kind is converted to the other. */
module Numbers {
  import opened Arithmetic
  import opened Bytes

  function Pow2(n: nat): (r: nat)
    ensures 0 < r
  {
    if n == 0 then 1 else 2 * Pow2(n - 1)
  }

  const TWO_52 := 0x10_0000_0000_0000
  const TWO_53 := 0x20_0000_0000_0000
  const TWO_63 := 0x8000_0000_0000_0000

  predicate IsInt64(n: int) {
    0 - TWO_63 <= n < TWO_63
  }

  // ----- Doubles -----

  /** The three fields of the binary64 format of IEEE 754. */
  datatype Double = Double(negative: bool, exponent: nat, fraction: nat) {

    predicate WellFormed() {
      exponent < 2048 && fraction < TWO_52
    }

    function Bits(): nat {
      (if negative then TWO_63 else 0) + exponent * TWO_52 + fraction
    }

    /** Neither infinite nor not a number. */
    predicate IsFinite() {
      exponent < 2047
    }

    predicate IsZero() {
      exponent == 0 && fraction == 0
    }

    /** A finite double is its significand times two to the power of its scale. */
    function Significand(): nat {
      if exponent == 0 then fraction else TWO_52 + fraction
    }

    function Scale(): int {
      (if exponent == 0 then 1 else exponent) - 1075
    }

    predicate IsWhole() {
      Scale() >= 0 || Significand() % Pow2(0 - Scale()) == 0
    }

    /** The number without its sign and its fractional part. */
    function Magnitude(): int {
      if Scale() >= 0 then Significand() * Pow2(Scale()) else Significand() / Pow2(0 - Scale())
    }

    function Truncated(): int {
      if negative then 0 - Magnitude() else Magnitude()
    }

    /** Whether it is equal to an integer. */
    predicate Equals(n: int) {
      IsFinite() && IsWhole() && Truncated() == n
    }
  }

  function DoubleBytes(d: Double): (r: ByteSeq)
    ensures |r| == 8
  {
    BigEndian(d.Bits(), 8)
  }

  function DoubleOf(bytes: ByteSeq): Double {
    var bits := FromBigEndian(bytes);
    Double(bits / TWO_63 % 2 == 1, bits / TWO_52 % 2048, bits % TWO_52)
  }

  lemma DoubleRoundTrip(d: Double)
    requires d.WellFormed()
    ensures DoubleOf(DoubleBytes(d)) == d
  {
    SignedRanges(0);
    assert Pow256(8) == 2 * TWO_63 by { Pow256Of8(); }
    hide Pow256;
    hide BigEndian;
    hide FromBigEndian;
    BigEndianRoundTrip(d.Bits(), 8);
  }

  lemma Pow256Of8()
    ensures Pow256(8) == 0x1_0000_0000_0000_0000
  {
    assert Pow256(2) == 0x1_0000;
    assert Pow256(4) == 0x1_0000_0000;
    assert Pow256(6) == 0x1_0000_0000_0000;
  }

  /** Cutting off the fractional part keeps the sign and goes towards zero: the magnitude is the
      largest integer that is not above that of the double. */
  lemma TruncatedTowardsZero(d: Double)
    ensures if d.negative then d.Truncated() <= 0 else 0 <= d.Truncated()
    ensures var magnitude := if d.negative then 0 - d.Truncated() else d.Truncated();
            if d.Scale() >= 0 then magnitude == d.Significand() * Pow2(d.Scale())
            else magnitude * Pow2(0 - d.Scale()) <= d.Significand() < (magnitude + 1) * Pow2(0 - d.Scale())
  {
    MagnitudeBounds(d);
    hide Pow2;
    hide Double.Magnitude;
    hide Double.Significand;
    hide Double.Scale;
  }

  lemma ProductIsNat(a: nat, b: nat)
    ensures 0 <= a * b
  {
  }

  lemma MagnitudeBounds(d: Double)
    ensures 0 <= d.Magnitude()
    ensures if d.Scale() >= 0 then d.Magnitude() == d.Significand() * Pow2(d.Scale())
            else d.Magnitude() * Pow2(0 - d.Scale()) <= d.Significand() < (d.Magnitude() + 1) * Pow2(0 - d.Scale())
  {
    hide Pow2;
    hide Double.Significand;
    hide Double.Scale;
    if d.Scale() < 0 {
      var p := Pow2(0 - d.Scale());
      var q := d.Magnitude();
      assert q == d.Significand() / p;
      hide Double.Magnitude;
      Floor(d.Significand(), p, q);
    } else {
      ProductIsNat(d.Significand(), Pow2(d.Scale()));
    }
  }

  lemma Floor(x: nat, p: nat, q: int)
    requires 0 < p && q == x / p
    ensures 0 <= q && q * p <= x < (q + 1) * p
  {
    DivisionParts(x, p);
    MultipleSum(p, q, 1);
  }

  /** The bytes of a double: a bit for the sign, eleven for the exponent, and the fraction. */
  lemma DoubleLayout(d: Double)
    requires d.WellFormed()
    ensures var bytes := DoubleBytes(d);
            && bytes[0] == (if d.negative then 0x80 else 0) + d.exponent / 16
            && bytes[1] == d.exponent % 16 * 16 + d.fraction / 0x1_0000_0000_0000
            && forall i :: 2 <= i < 8 ==> bytes[i] == d.fraction / Pow256(7 - i) % 256
  {
    var bits := d.Bits();
    PowersOf256();
    BigEndianDigit(bits, 8, 0);
    BigEndianDigit(bits, 8, 1);
    HighBytes(d);
    hide BigEndian;
    forall i | 2 <= i < 8 ensures DoubleBytes(d)[i] == d.fraction / Pow256(7 - i) % 256 {
      BigEndianDigit(bits, 8, i);
      LowByte(d, i);
    }
  }

  lemma PowersOf256()
    ensures Pow256(6) == 0x1_0000_0000_0000 && Pow256(7) == 0x100_0000_0000_0000
    ensures Pow256(1) == 0x100 && Pow256(2) == 0x1_0000 && Pow256(3) == 0x100_0000
    ensures Pow256(4) == 0x1_0000_0000 && Pow256(5) == 0x100_0000_0000 && Pow256(0) == 1
  {
    assert Pow256(2) == 0x1_0000;
    assert Pow256(4) == 0x1_0000_0000;
  }

  lemma HighBytes(d: Double)
    requires d.WellFormed()
    ensures d.Bits() / 0x100_0000_0000_0000 % 256 == (if d.negative then 0x80 else 0) + d.exponent / 16
    ensures d.Bits() / 0x1_0000_0000_0000 % 256 == d.exponent % 16 * 16 + d.fraction / 0x1_0000_0000_0000
  {
    var top, p := (if d.negative then 2048 else 0) + d.exponent, 0x1_0000_0000_0000;
    var high := d.fraction / p;
    DivisionParts(d.fraction, p);
    DivisionIsUnique(d.Bits(), p, 16 * top + high, d.fraction % p);
    DividedTwice(d.Bits(), p, 256);
    TopBytes(d.negative, d.exponent, high);
  }

  lemma TopBytes(negative: bool, exponent: nat, high: nat)
    requires exponent < 2048 && high < 16
    ensures var x := 16 * ((if negative then 2048 else 0) + exponent) + high;
            && x / 256 % 256 == (if negative then 0x80 else 0) + exponent / 16
            && x % 256 == exponent % 16 * 16 + high
  {
  }

  lemma LowByte(d: Double, i: nat)
    requires d.WellFormed() && 2 <= i < 8
    ensures d.Bits() / Pow256(7 - i) % 256 == d.fraction / Pow256(7 - i) % 256
  {
    PowersOf256();
    hide Pow256;
    var top := (if d.negative then 2048 else 0) + d.exponent;
    assert d.Bits() == top * TWO_52 + d.fraction;
    if i == 2 {
      LowDigit(d.Bits(), d.fraction, 0x100_0000_0000, 0x10 * top);
    } else if i == 3 {
      LowDigit(d.Bits(), d.fraction, 0x1_0000_0000, 0x1000 * top);
    } else if i == 4 {
      LowDigit(d.Bits(), d.fraction, 0x100_0000, 0x10_0000 * top);
    } else if i == 5 {
      LowDigit(d.Bits(), d.fraction, 0x1_0000, 0x1000_0000 * top);
    } else if i == 6 {
      LowDigit(d.Bits(), d.fraction, 0x100, 0x10_0000_0000 * top);
    } else {
      LowDigit(d.Bits(), d.fraction, 1, 0x1000_0000_0000 * top);
    }
  }

  /** A multiple of a high power does not change a low digit. */
  lemma LowDigit(bits: nat, low: nat, p: nat, x: nat)
    requires 0 < p && bits == p * (256 * x) + low
    ensures bits / p % 256 == low / p % 256
  {
    var q := low / p;
    DivisionParts(low, p);
    MultipleSum(p, 256 * x, q);
    DivisionIsUnique(bits, p, 256 * x + q, low % p);
  }

  lemma MultipleSum(p: nat, a: nat, b: nat)
    ensures p * (a + b) == p * a + p * b
  {
  }

  // ----- From integers to doubles -----

  /** The number of binary digits. */
  function BitLength(m: nat): (r: nat)
    ensures m < Pow2(r)
    ensures 0 < m ==> 0 < r && Pow2(r - 1) <= m
  {
    if m == 0 then 0 else 1 + BitLength(m / 2)
  }

  /** A quotient, rounded to the nearest integer and to an even one if two are as near. */
  function RoundedQuotient(m: nat, p: nat): nat
    requires 0 < p
  {
    var q, rest := m / p, m % p;
    if 2 * rest > p || (2 * rest == p && q % 2 == 1) then q + 1 else q
  }

  /** The cast of a C integer to a double, in the default rounding mode. */
  function NearestDouble(n: int): Double {
    var m := if n < 0 then 0 - n else n;
    var length := BitLength(m);
    if m == 0 then Double(false, 0, 0)
    else if length <= 53 then Double(n < 0, length + 1022, Positive(m * Pow2(53 - length) - TWO_52))
    else
      var q := RoundedQuotient(m, Pow2(length - 53));
      if q == TWO_53 then Double(n < 0, length + 1023, 0)
      else Double(n < 0, length + 1022, Positive(q - TWO_52))
  }

  function Positive(n: int): nat {
    if n < 0 then 0 else n
  }

  /** An integer that needs no more than the 53 digits of a significand. */
  predicate FitsDouble(n: int) {
    var m := if n < 0 then 0 - n else n;
    var length := BitLength(m);
    length <= 53 || m % Pow2(length - 53) == 0
  }

  lemma {:induction false} Pow2Sum(a: nat, b: nat)
    ensures Pow2(a + b) == Pow2(a) * Pow2(b)
  {
    if a > 0 {
      Pow2Sum(a - 1, b);
      assert a + b - 1 == (a - 1) + b;
    }
  }

  lemma {:induction false} Pow2Grows(a: nat, b: nat)
    requires a <= b
    ensures Pow2(a) <= Pow2(b)
  {
    if a < b {
      Pow2Grows(a, b - 1);
    }
  }

  lemma PowersOfTwo()
    ensures Pow2(52) == TWO_52 && Pow2(53) == TWO_53 && Pow2(63) == TWO_63
  {
    assert Pow2(10) == 0x400;
    assert Pow2(20) == 0x10_0000 by { Pow2Sum(10, 10); }
    assert Pow2(40) == 0x100_0000_0000 by { Pow2Sum(20, 20); }
    assert Pow2(50) == 0x4_0000_0000_0000 by { Pow2Sum(40, 10); }
    assert Pow2(60) == 0x1000_0000_0000_0000 by { Pow2Sum(50, 10); }
  }

  lemma LengthOfInt64(m: nat)
    requires m <= TWO_63
    ensures BitLength(m) <= 64
  {
    PowersOfTwo();
    if BitLength(m) > 64 {
      Pow2Grows(64, BitLength(m) - 1);
    }
  }

  /** A significand that only makes room for the scale. */
  lemma ScaledDown(d: Double, m: nat, k: nat)
    requires d.IsFinite() && d.Scale() == 0 - k && d.Significand() == m * Pow2(k)
    ensures d.Equals(if d.negative then 0 - m else m)
  {
    var p := Pow2(k);
    Divided(m, p);
    if k == 0 {
      assert p == 1;
      assert d.Significand() == m;
      assert m * 1 == m;
    }
  }

  /** A scale above one. */
  lemma ScaledUp(d: Double, q: nat, k: nat)
    requires d.IsFinite() && d.Scale() == k && d.Significand() == q
    ensures d.IsWhole() && d.Truncated() == if d.negative then 0 - q * Pow2(k) else q * Pow2(k)
  {
  }

  /** The significand of a number of up to 53 digits. */
  lemma ShortSignificand(m: nat)
    requires 0 < m && BitLength(m) <= 53
    ensures var length := BitLength(m);
            0 < length && TWO_52 <= m * Pow2(53 - length) < TWO_53
  {
    var length := BitLength(m);
    PowersOfTwo();
    Pow2Sum(length - 1, 53 - length);
    Pow2Sum(length, 53 - length);
    var low, high, p := Pow2(length - 1), Pow2(length), Pow2(53 - length);
    hide Pow2;
    hide BitLength;
    Scaled(m, p, low, high);
  }

  /** Up to 53 digits, the conversion is exact. */
  lemma ShortIsExact(n: int)
    requires BitLength(if n < 0 then 0 - n else n) <= 53
    ensures NearestDouble(n).WellFormed() && NearestDouble(n).Equals(n)
  {
    var m := if n < 0 then 0 - n else n;
    var length := BitLength(m);
    if m == 0 {
      ZeroIsExact(n);
    } else {
      ShortSignificand(m);
      hide Pow2;
      hide BitLength;
      var d := NearestDouble(n);
      assert d == Double(n < 0, length + 1022, m * Pow2(53 - length) - TWO_52);
      hide NearestDouble;
      hide Double.Equals;
      ScaledDown(d, m, 53 - length);
    }
  }

  lemma ZeroIsExact(n: int)
    requires n == 0
    ensures NearestDouble(n) == Double(false, 0, 0) && NearestDouble(n).Equals(n)
  {
    hide BitLength;
    var d := NearestDouble(n);
    assert d.Significand() == 0 && d.Scale() == -1074;
    ScaledDown(d, 0, 1074);
  }

  lemma Scaled(m: nat, p: nat, low: nat, high: nat)
    requires low <= m < high
    ensures low * p <= m * p
    ensures 0 < p ==> m * p < high * p
  {
  }

  /** Rounding is off by at most half of the divisor, and not at all exactly if it divides. */
  lemma RoundedIsNear(m: nat, p: nat)
    requires 0 < p
    ensures var q := RoundedQuotient(m, p);
            && 0 - p <= 2 * (q * p - m) <= p
            && (q * p == m <==> m % p == 0)
            && (2 * (q * p - m) == p || 2 * (m - q * p) == p ==> q % 2 == 0)
            && m / p <= q <= m / p + 1
  {
    DivisionParts(m, p);
    var q, rest := m / p, m % p;
    assert p * q == q * p;
    assert (q + 1) * p == q * p + p;
  }

  lemma LongQuotient(m: nat)
    requires m <= TWO_63 && 53 < BitLength(m)
    ensures TWO_52 <= m / Pow2(BitLength(m) - 53) < TWO_53
    ensures BitLength(m) <= 64
  {
    var length := BitLength(m);
    LengthOfInt64(m);
    PowersOfTwo();
    Pow2Sum(52, length - 53);
    Pow2Sum(53, length - 53);
    var low, high, p := Pow2(length - 1), Pow2(length), Pow2(length - 53);
    hide Pow2;
    hide BitLength;
    QuotientBetween(m, p, TWO_52, TWO_53);
  }

  /** The double of a number of more than 53 digits. */
  lemma LongDouble(n: int)
    requires IsInt64(n) && 53 < BitLength(if n < 0 then 0 - n else n)
    ensures var m := if n < 0 then 0 - n else n;
            var p := Pow2(BitLength(m) - 53);
            var q := RoundedQuotient(m, p);
            var d := NearestDouble(n);
            && d.WellFormed() && d.IsFinite() && d.IsWhole()
            && d.Truncated() == (if n < 0 then 0 - q * p else q * p)
  {
    var m := if n < 0 then 0 - n else n;
    var length := BitLength(m);
    var p := Pow2(length - 53);
    var q := RoundedQuotient(m, p);
    LongQuotient(m);
    RoundedIsNear(m, p);
    hide BitLength;
    hide RoundedQuotient;
    hide Double.Magnitude;
    assert m != 0;
    var d := NearestDouble(n);
    if q == TWO_53 {
      assert d == Double(n < 0, length + 1023, 0);
      assert Pow2(length - 52) == 2 * p;
      assert d.Significand() == TWO_52 && d.Scale() == length - 52;
      hide Pow2;
      hide NearestDouble;
      ScaledUp(d, TWO_52, length - 52);
      assert TWO_52 * (2 * p) == TWO_53 * p;
    } else {
      assert d == Double(n < 0, length + 1022, q - TWO_52);
      assert d.Significand() == q && d.Scale() == length - 53;
      hide Pow2;
      hide NearestDouble;
      ScaledUp(d, q, length - 53);
    }
  }

  lemma LongFraction(n: int)
    requires IsInt64(n) && 53 < BitLength(if n < 0 then 0 - n else n)
    ensures var m := if n < 0 then 0 - n else n;
            RoundedQuotient(m, Pow2(BitLength(m) - 53)) % 2 == 0 ==> NearestDouble(n).fraction % 2 == 0
  {
    hide BitLength;
    hide Pow2;
    hide RoundedQuotient;
  }

  /** The conversion gives a double that is off by at most half of the last digit kept, in which case
      its own last digit is even, and that is equal to the integer if and only if this fits the
      digits of a double. */
  lemma NearestIsNear(n: int)
    requires IsInt64(n)
    ensures var d := NearestDouble(n);
            var length := BitLength(if n < 0 then 0 - n else n);
            && d.WellFormed() && d.IsFinite() && d.IsWhole()
            && (d.Equals(n) <==> FitsDouble(n))
            && (53 < length ==> 0 - Pow2(length - 53) <= 2 * (d.Truncated() - n) <= Pow2(length - 53))
            && (53 < length && (2 * (d.Truncated() - n) == Pow2(length - 53)
                                || 2 * (n - d.Truncated()) == Pow2(length - 53)) ==>
                  d.fraction % 2 == 0)
  {
    var m := if n < 0 then 0 - n else n;
    if BitLength(m) <= 53 {
      ShortIsExact(n);
    } else {
      LongDouble(n);
      LongFraction(n);
      RoundedIsNear(m, Pow2(BitLength(m) - 53));
      hide NearestDouble;
      hide RoundedQuotient;
      hide BitLength;
      hide Pow2;
      hide Double.Truncated;
      hide Double.IsWhole;
    }
  }
}
