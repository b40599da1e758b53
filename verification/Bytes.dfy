/** Bytes, and big-endian two's complement numbers made of them. */
module Bytes {
  import opened Arithmetic

  type Byte = x: int | 0 <= x < 256

  type ByteSeq = seq<Byte>

  lemma Parts(before: ByteSeq, a: ByteSeq, b: ByteSeq, c: ByteSeq)
    ensures before + a + b + c == before + (a + b + c)
  {
  }

  /** 256 to the power of `n`. */
  function Pow256(n: nat): nat
    ensures 0 < Pow256(n)
  {
    if n == 0 then 1 else 256 * Pow256(n - 1)
  }

  /** The low `n` bytes of a number, most significant first. */
  function BigEndian(value: nat, n: nat): (r: ByteSeq)
    ensures |r| == n
  {
    if n == 0 then [] else BigEndian(value / 256, n - 1) + [value % 256]
  }

  function FromBigEndian(bytes: ByteSeq): (r: nat)
    ensures r < Pow256(|bytes|)
  {
    if bytes == [] then 0 else FromBigEndian(bytes[..|bytes| - 1]) * 256 + bytes[|bytes| - 1]
  }

  lemma {:induction false} BigEndianRoundTrip(value: nat, n: nat)
    requires value < Pow256(n)
    ensures FromBigEndian(BigEndian(value, n)) == value
  {
    if n > 0 {
      BigEndianRoundTrip(value / 256, n - 1);
      assert BigEndian(value, n)[..n - 1] == BigEndian(value / 256, n - 1);
    }
  }

  /** Each byte is a digit of the number to the base 256, the last one the lowest. */
  lemma {:induction false} BigEndianDigit(value: nat, n: nat, i: nat)
    requires i < n
    ensures BigEndian(value, n)[i] == value / Pow256(n - 1 - i) % 256
  {
    if i == n - 1 {
      assert Pow256(0) == 1;
    } else {
      BigEndianDigit(value / 256, n - 1, i);
      DividedTwice(value, 256, Pow256(n - 2 - i));
      assert Pow256(n - 1 - i) == 256 * Pow256(n - 2 - i);
    }
  }

  lemma {:induction false} FromBigEndianRoundTrip(bytes: ByteSeq)
    ensures BigEndian(FromBigEndian(bytes), |bytes|) == bytes
  {
    if bytes != [] {
      FromBigEndianRoundTrip(bytes[..|bytes| - 1]);
      var high, low := FromBigEndian(bytes[..|bytes| - 1]), bytes[|bytes| - 1];
      assert (high * 256 + low) / 256 == high && (high * 256 + low) % 256 == low;
    }
  }

  // ----- Signed numbers -----

  /** Whether `n` bytes of two's complement hold the number. */
  predicate FitsSigned(value: int, n: nat) {
    0 - Pow256(n) <= 2 * value < Pow256(n)
  }

  /** The cast to an unsigned type of `n` bytes. */
  function ToUnsigned(value: int, n: nat): (r: nat)
    requires FitsSigned(value, n)
    ensures r < Pow256(n)
  {
    if value < 0 then value + Pow256(n) else value
  }

  /** The cast from an unsigned type of `n` bytes back to the signed one: sign extension. */
  function ToSigned(value: nat, n: nat): int {
    if 2 * value >= Pow256(n) then value - Pow256(n) else value
  }

  /** The value ranges of the four integer types. */
  lemma SignedRanges(value: int)
    ensures FitsSigned(value, 1) <==> -128 <= value <= 127
    ensures FitsSigned(value, 2) <==> -32768 <= value <= 32767
    ensures FitsSigned(value, 4) <==> -0x8000_0000 <= value <= 0x7fff_ffff
    ensures FitsSigned(value, 8) <==> -0x8000_0000_0000_0000 <= value <= 0x7fff_ffff_ffff_ffff
  {
    assert Pow256(1) == 256;
    assert Pow256(2) == 0x1_0000;
    assert Pow256(3) == 0x100_0000;
    assert Pow256(4) == 0x1_0000_0000;
    assert Pow256(5) == 0x100_0000_0000;
    assert Pow256(6) == 0x1_0000_0000_0000;
    assert Pow256(7) == 0x100_0000_0000_0000;
    assert Pow256(8) == 0x1_0000_0000_0000_0000;
  }

  /** Written and read back in any width that holds it, a number is unchanged. */
  lemma SignedRoundTrip(value: int, n: nat)
    requires FitsSigned(value, n)
    ensures ToSigned(FromBigEndian(BigEndian(ToUnsigned(value, n), n)), n) == value
  {
    BigEndianRoundTrip(ToUnsigned(value, n), n);
  }

  /** And every byte sequence is the encoding of the number that it reads as. */
  lemma SignedBytesRoundTrip(bytes: ByteSeq)
    ensures var value := ToSigned(FromBigEndian(bytes), |bytes|);
            FitsSigned(value, |bytes|) && BigEndian(ToUnsigned(value, |bytes|), |bytes|) == bytes
  {
    hide Pow256;
    hide FromBigEndian;
    hide BigEndian;
    FromBigEndianRoundTrip(bytes);
  }
}
