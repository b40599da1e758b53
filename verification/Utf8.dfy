/** Which bytes are the UTF-8 form of a string. */
module Utf8 {
  import opened Bytes

  predicate IsTail(b: Byte) {
    0x80 <= b < 0xc0
  }

  /** What may follow the first byte of a character; the ranges keep out longer forms than needed,
      surrogates, and what lies beyond the last code point. */
  predicate IsSecond(first: Byte, b: Byte) {
    && IsTail(b)
    && (first == 0xe0 ==> 0xa0 <= b)
    && (first == 0xed ==> b < 0xa0)
    && (first == 0xf0 ==> 0x90 <= b)
    && (first == 0xf4 ==> b < 0x90)
  }

  /** The length of the character at the start, or zero if there is none (section 4 of RFC 3629). */
  function CharacterLength(bytes: ByteSeq): (n: nat)
    requires bytes != []
    ensures n <= |bytes|
  {
    var first := bytes[0];
    if first < 0x80 then 1
    else if first < 0xc2 || 0xf4 < first || |bytes| < 2 || !IsSecond(first, bytes[1]) then 0
    else if first < 0xe0 then 2
    else if |bytes| < 3 || !IsTail(bytes[2]) then 0
    else if first < 0xf0 then 3
    else if |bytes| < 4 || !IsTail(bytes[3]) then 0
    else 4
  }

  predicate IsUtf8(bytes: ByteSeq) {
    bytes == [] || (CharacterLength(bytes) > 0 && IsUtf8(bytes[CharacterLength(bytes)..]))
  }

  lemma {:induction false} AsciiIsUtf8(bytes: ByteSeq)
    requires forall b :: b in bytes ==> b < 0x80
    ensures IsUtf8(bytes)
  {
    if bytes != [] {
      assert bytes[0] in bytes && forall b :: b in bytes[1..] ==> b in bytes;
      AsciiIsUtf8(bytes[1..]);
    }
  }

  // ----- The bytes are those of code points -----

  /** What a character can be: there are no code points for the two halves of a surrogate pair. */
  predicate IsScalar(c: int) {
    0 <= c < 0xd800 || 0xe000 <= c < 0x11_0000
  }

  function CodePointBytes(c: int): ByteSeq
    requires IsScalar(c)
  {
    if c < 0x80 then [c]
    else if c < 0x800 then [0xc0 + c / 0x40, 0x80 + c % 0x40]
    else if c < 0x1_0000 then [0xe0 + c / 0x1000, 0x80 + c / 0x40 % 0x40, 0x80 + c % 0x40]
    else [0xf0 + c / 0x4_0000, 0x80 + c / 0x1000 % 0x40, 0x80 + c / 0x40 % 0x40, 0x80 + c % 0x40]
  }

  function CodePointsBytes(cs: seq<int>): ByteSeq
    requires forall c :: c in cs ==> IsScalar(c)
  {
    if cs == [] then [] else CodePointBytes(cs[0]) + CodePointsBytes(cs[1..])
  }

  /** The code point of a character of one to four bytes. */
  function CodePoint(bytes: seq<int>): int
    requires 1 <= |bytes| <= 4
  {
    if |bytes| == 1 then bytes[0]
    else if |bytes| == 2 then (bytes[0] - 0xc0) * 0x40 + (bytes[1] - 0x80)
    else if |bytes| == 3 then ((bytes[0] - 0xe0) * 0x40 + (bytes[1] - 0x80)) * 0x40 + (bytes[2] - 0x80)
    else (((bytes[0] - 0xf0) * 0x40 + (bytes[1] - 0x80)) * 0x40 + (bytes[2] - 0x80)) * 0x40 + (bytes[3] - 0x80)
  }

  lemma CharacterIsCodePoint(bytes: ByteSeq)
    requires bytes != [] && CharacterLength(bytes) > 0
    ensures var n := CharacterLength(bytes);
            && 1 <= n <= 4 && n <= |bytes|
            && IsScalar(CodePoint(bytes[..n])) && CodePointBytes(CodePoint(bytes[..n])) == bytes[..n]
  {
    var n := CharacterLength(bytes);
    if n == 1 {
      assert bytes[..1] == [bytes[0]];
    } else if n == 2 {
      TwoBytes(bytes[0], bytes[1]);
      assert bytes[..2] == [bytes[0], bytes[1]];
    } else if n == 3 {
      ThreeBytes(bytes[0], bytes[1], bytes[2]);
      assert bytes[..3] == [bytes[0], bytes[1], bytes[2]];
    } else {
      FourBytes(bytes[0], bytes[1], bytes[2], bytes[3]);
      assert bytes[..4] == [bytes[0], bytes[1], bytes[2], bytes[3]];
    }
    hide CodePointBytes;
    hide CodePoint;
  }

  /** The low six bits, and the rest. */
  lemma SixBits(high: int, low: int)
    requires 0 <= low < 0x40
    ensures (high * 0x40 + low) / 0x40 == high && (high * 0x40 + low) % 0x40 == low
  {
  }

  lemma TwoBytes(a: Byte, b: Byte)
    requires 0xc2 <= a < 0xe0 && IsSecond(a, b)
    ensures IsScalar(CodePoint([a, b])) && CodePointBytes(CodePoint([a, b])) == [a, b]
  {
    SixBits(a as int - 0xc0, b as int - 0x80);
  }

  lemma ThreeBytes(a: Byte, b: Byte, c: Byte)
    requires 0xe0 <= a < 0xf0 && IsSecond(a, b) && IsTail(c)
    ensures IsScalar(CodePoint([a, b, c])) && CodePointBytes(CodePoint([a, b, c])) == [a, b, c]
  {
    var high := (a as int - 0xe0) * 0x40 + (b as int - 0x80);
    SixBits(a as int - 0xe0, b as int - 0x80);
    SixBits(high, c as int - 0x80);
    assert (high * 0x40 + (c as int - 0x80)) / 0x1000 == high / 0x40;
  }

  lemma FourBytes(a: Byte, b: Byte, c: Byte, d: Byte)
    requires 0xf0 <= a <= 0xf4 && IsSecond(a, b) && IsTail(c) && IsTail(d)
    ensures IsScalar(CodePoint([a, b, c, d])) && CodePointBytes(CodePoint([a, b, c, d])) == [a, b, c, d]
  {
    SixBitsThrice(a as int - 0xf0, b as int - 0x80, c as int - 0x80, d as int - 0x80);
  }

  lemma SixBitsThrice(i: int, j: int, k: int, l: int)
    requires 0 <= j < 0x40 && 0 <= k < 0x40 && 0 <= l < 0x40
    ensures var point := ((i * 0x40 + j) * 0x40 + k) * 0x40 + l;
            && point / 0x4_0000 == i && point / 0x1000 % 0x40 == j && point / 0x40 % 0x40 == k && point % 0x40 == l
  {
    SixBits(i, j);
    SixBits(i * 0x40 + j, k);
    SixBits((i * 0x40 + j) * 0x40 + k, l);
  }

  lemma CodePointIsCharacter(c: int, rest: ByteSeq)
    requires IsScalar(c)
    ensures CodePointBytes(c) != []
    ensures CharacterLength(CodePointBytes(c) + rest) == |CodePointBytes(c)|
  {
  }

  lemma {:induction false} CodePointsAreUtf8(cs: seq<int>)
    requires forall c :: c in cs ==> IsScalar(c)
    ensures IsUtf8(CodePointsBytes(cs))
  {
    if cs != [] {
      var first, rest := CodePointBytes(cs[0]), CodePointsBytes(cs[1..]);
      CodePointIsCharacter(cs[0], rest);
      CodePointsAreUtf8(cs[1..]);
      assert (first + rest)[|first|..] == rest;
    }
  }

  /** The first character, and the rest. */
  lemma FirstCharacter(bytes: ByteSeq) returns (c: int, n: nat)
    requires IsUtf8(bytes) && bytes != []
    ensures 0 < n <= |bytes| && IsUtf8(bytes[n..])
    ensures IsScalar(c) && CodePointBytes(c) + bytes[n..] == bytes
  {
    n := CharacterLength(bytes);
    CharacterIsCodePoint(bytes);
    c := CodePoint(bytes[..n]);
    hide CharacterLength;
    hide CodePointBytes;
    hide CodePoint;
    hide IsScalar;
    assert bytes == bytes[..n] + bytes[n..];
  }

  lemma {:induction false} Utf8IsCodePoints(bytes: ByteSeq) returns (cs: seq<int>)
    requires IsUtf8(bytes)
    ensures (forall c :: c in cs ==> IsScalar(c)) && CodePointsBytes(cs) == bytes
    decreases |bytes|
  {
    if bytes == [] {
      return [];
    }
    hide *;
    var c, n := FirstCharacter(bytes);
    cs := Utf8IsCodePoints(bytes[n..]);
    OneMoreCodePoint(c, cs);
    cs := [c] + cs;
  }

  lemma OneMoreCodePoint(c: int, cs: seq<int>)
    requires IsScalar(c) && forall c' :: c' in cs ==> IsScalar(c')
    ensures forall c' :: c' in [c] + cs ==> IsScalar(c')
    ensures CodePointsBytes([c] + cs) == CodePointBytes(c) + CodePointsBytes(cs)
  {
    hide IsScalar;
    hide CodePointBytes;
    assert ([c] + cs)[1..] == cs;
  }

  /** Bytes are UTF-8 exactly if they are the bytes of a sequence of code points. */
  lemma Utf8Iff(bytes: ByteSeq)
    ensures IsUtf8(bytes)
       <==> exists cs: seq<int> :: (forall c :: c in cs ==> IsScalar(c)) && CodePointsBytes(cs) == bytes
  {
    if IsUtf8(bytes) {
      var cs := Utf8IsCodePoints(bytes);
    }
    if cs: seq<int> :| (forall c :: c in cs ==> IsScalar(c)) && CodePointsBytes(cs) == bytes {
      CodePointsAreUtf8(cs);
    }
  }
}
