/** The bytes of tokens, values and items as numbers. */
module TokenLayout {
  import opened Bytes
  import opened BinaryWriter
  import opened BinaryReader
  import opened Paths
  import opened Numbers
  import opened ItemFormat

  // ----- Tokens -----

  /** An integer: one of four tags by its size, and its two's complement, highest byte first. */
  lemma IntegerLayout(value: int) returns (u: nat)
    requires -0x8000_0000_0000_0000 <= value <= 0x7fff_ffff_ffff_ffff
    ensures var e := Encode(IntegerToken(value));
            && |e| == (if -0x80 <= value < 0x80 then 2
                       else if -0x8000 <= value < 0x8000 then 3
                       else if -0x8000_0000 <= value < 0x8000_0000 then 5
                       else 9)
            && e[0] == (if |e| == 2 then 0x42 else if |e| == 3 then 0x69 else if |e| == 5 then 0x49 else 0x4c)
            && u == (if value < 0 then value + Pow256(|e| - 1) else value)
            && forall i :: 1 <= i < |e| ==> e[i] == u / Pow256(|e| - 1 - i) % 256
    ensures Pow256(0) == 1 && Pow256(1) == 0x100 && Pow256(2) == 0x1_0000 && Pow256(4) == 0x1_0000_0000
    ensures Pow256(8) == 0x1_0000_0000_0000_0000
  {
    IntegerEncoding(value);
    SignedRanges(value);
    var n := IntegerWidth(value);
    u := ToUnsigned(value, n);
    assert Pow256(0) == 1;
    hide Pow256;
    hide BigEndian;
    hide Encode;
    var e := Encode(IntegerToken(value));
    assert |e| == 1 + n;
    forall i | 1 <= i < |e| ensures e[i] == u / Pow256(|e| - 1 - i) % 256 {
      BigEndianDigit(u, n, i - 1);
      assert e[i] == BigEndian(u, n)[i - 1];
    }
  }

  lemma LengthBytes(n: nat)
    requires n < 0x1_0000_0000
    ensures n <= 0xff ==> BigEndian(n, 1) == [n]
    ensures BigEndian(n, 4) == [n / 0x100_0000, n / 0x1_0000 % 0x100, n / 0x100 % 0x100, n % 0x100]
  {
    hide *;
    if n <= 0xff {
      OneByte(n);
    }
    DigitsOfLength(n);
    HighestDigit(n);
    FourBytes(BigEndian(n, 4), n / 0x100_0000, n / 0x1_0000 % 0x100, n / 0x100 % 0x100, n % 0x100);
  }

  lemma OneByte(n: nat)
    requires n <= 0xff
    ensures BigEndian(n, 1) == [n]
  {
  }

  lemma HighestDigit(n: nat)
    requires n < 0x1_0000_0000
    ensures n / 0x100_0000 < 0x100 && n / 0x100_0000 % 0x100 == n / 0x100_0000 && n / 1 == n
  {
  }

  lemma DigitsOfLength(n: nat)
    ensures |BigEndian(n, 4)| == 4
    ensures BigEndian(n, 4)[0] == n / 0x100_0000 % 0x100 && BigEndian(n, 4)[1] == n / 0x1_0000 % 0x100
    ensures BigEndian(n, 4)[2] == n / 0x100 % 0x100 && BigEndian(n, 4)[3] == n / 1 % 0x100
  {
    PowersOf256();
    hide Pow256;
    hide BigEndian;
    DigitIs(n, 4, 0, 0x100_0000);
    DigitIs(n, 4, 1, 0x1_0000);
    DigitIs(n, 4, 2, 0x100);
    DigitIs(n, 4, 3, 1);
  }

  lemma FourBytes(bytes: ByteSeq, a: Byte, b: Byte, c: Byte, d: Byte)
    requires |bytes| == 4 && bytes[0] == a && bytes[1] == b && bytes[2] == c && bytes[3] == d
    ensures bytes == [a, b, c, d]
  {
  }

  lemma DigitIs(value: nat, n: nat, i: nat, p: nat)
    requires i < n && p == Pow256(n - 1 - i)
    ensures BigEndian(value, n)[i] == value / p % 256
  {
    BigEndianDigit(value, n, i);
  }

  lemma PowersOf256()
    ensures Pow256(0) == 1 && Pow256(1) == 0x100 && Pow256(2) == 0x1_0000 && Pow256(3) == 0x100_0000
  {
  }

  /** Strings and data: a tag and one byte for the length, or another tag and four bytes. */
  function Prefixed(short: Byte, long: Byte, bytes: ByteSeq): ByteSeq
    requires |bytes| < 0x1_0000_0000
  {
    var n := |bytes|;
    if n < 0x100 then [short, n] + bytes
    else [long, n / 0x100_0000, n / 0x1_0000 % 0x100, n / 0x100 % 0x100, n % 0x100] + bytes
  }

  lemma PrefixedLayout(short: Byte, long: Byte, bytes: ByteSeq)
    requires |bytes| < 0x1_0000_0000
    ensures WithLength(short, long, bytes) == Prefixed(short, long, bytes)
  {
    WithLengthParts(short, long, bytes);
    LengthBytes(|bytes|);
    hide BigEndian;
    hide WithLength;
  }

  /** All other tokens. */
  lemma TokenBytes(t: Token)
    requires Storable(t) && !t.IntegerToken?
    ensures Encode(t) ==
            match t
            case DoubleToken(bytes) => [0x46] + bytes
            case StringToken(bytes) => Prefixed(0x73, 0x53, bytes)
            case BytesToken(bytes) => Prefixed(0x64, 0x44, bytes)
            case UUIDToken(bytes) => [0x23] + bytes
            case BeginObject => [0x7b]
            case EndObject => [0x7d]
            case BeginArray => [0x5b]
            case EndArray => [0x5d]
            case Null => [0x30]
            case IntegerToken(_) => []
  {
    hide Prefixed;
    hide WithLength;
    match t {
      case StringToken(bytes) => PrefixedLayout(SHORT_STRING_TAG, LONG_STRING_TAG, bytes);
      case BytesToken(bytes) => PrefixedLayout(SHORT_DATA_TAG, LONG_DATA_TAG, bytes);
      case _ =>
    }
  }

  // ----- What is read -----

  /** The tags that the reader knows; at another one it raises. */
  lemma KnownTags(bytes: ByteSeq)
    requires bytes != []
    ensures ReadOne(bytes).UnknownType?
       <==> bytes[0] !in {0x42, 0x69, 0x49, 0x4c, 0x46, 0x73, 0x53, 0x64, 0x44, 0x23, 0x7b, 0x7d, 0x5b, 0x5d, 0x30}
  {
    hide ReadInteger;
    hide ReadPrefixed;
    hide ReadFixed;
    ReadersKnow(bytes);
  }

  lemma ReadersKnow(bytes: ByteSeq)
    ensures forall n :: !ReadInteger(bytes, n).UnknownType?
    ensures forall n, b :: !ReadPrefixed(bytes, n, b).UnknownType? && !ReadFixed(bytes, n, b).UnknownType?
  {
  }

  lemma IntegerReader(bytes: ByteSeq, n: nat)
    requires bytes != [] && 1 + n <= |bytes|
    requires (bytes[0] == 0x42 && n == 1) || (bytes[0] == 0x69 && n == 2) || (bytes[0] == 0x49 && n == 4)
             || (bytes[0] == 0x4c && n == 8)
    ensures ReadOne(bytes) == Read(IntegerToken(ToSigned(FromBigEndian(bytes[1..1 + n]), n)), 1 + n)
  {
    hide FromBigEndian;
    hide ToSigned;
  }

  /** An integer of any of the four widths is read as the number that its bytes are the two's
      complement of, whether or not it needs the width. */
  lemma IntegerIsRead(bytes: ByteSeq, n: nat)
    requires bytes != [] && 1 + n <= |bytes|
    requires (bytes[0] == 0x42 && n == 1) || (bytes[0] == 0x69 && n == 2) || (bytes[0] == 0x49 && n == 4)
             || (bytes[0] == 0x4c && n == 8)
    ensures ReadOne(bytes).Read? && ReadOne(bytes).length == 1 + n && ReadOne(bytes).token.IntegerToken?
    ensures var value := ReadOne(bytes).token.value;
            && 0 - Pow256(n) <= 2 * value < Pow256(n)
            && forall i :: 1 <= i <= n ==>
                 bytes[i] == (if value < 0 then value + Pow256(n) else value) / Pow256(n - i) % 256
  {
    var digits := bytes[1..1 + n];
    SignedBytesRoundTrip(digits);
    IntegerReader(bytes, n);
    hide ReadOne;
    var value := ToSigned(FromBigEndian(digits), n);
    var u := ToUnsigned(value, n);
    hide Pow256;
    hide BigEndian;
    hide FromBigEndian;
    hide ToSigned;
    forall i | 1 <= i <= n ensures bytes[i] == u / Pow256(n - i) % 256 {
      BigEndianDigit(u, n, i - 1);
      assert bytes[i] == digits[i - 1];
    }
  }

  // ----- Types and values -----

  /** The numbers of the types. */
  lemma TypeNumbers(t: nat)
    ensures PrimitivePart(t) == t % 16
    ensures IsMultivalued(t) <==> t / 16 % 16 != 0
    ensures IsOrdered(t) <==> t / 16 % 16 == 2
    ensures IsValidType(t) <==> 1 <= t <= 7 || 0x11 <= t <= 0x17 || 0x21 <= t <= 0x27
  {
  }

  /** Which values pass for the number of a type. */
  lemma ValidatedValues(v: Value, t: nat)
    ensures HasPrimitiveType(v, t) <==>
            || v.NullValue?
            || (t % 16 in {1, 2} && (v.IntValue? || v.DoubleValue?))
            || (t % 16 == 3 && v.StringValue?)
            || (t % 16 == 4 && v.BlobValue?)
            || (t % 16 in {5, 6} && (v.UUIDValue? || v.PathValue?))
            || (t % 16 == 7 && v.AttachmentValue?)
  {
  }

  /** The bytes of a value by the number of its type. */
  lemma BytesOfValue(v: Value, t: nat)
    requires IsWritten(v, t)
    ensures ValueBytes(v, t) ==
            if v.NullValue? then [0x30]
            else if t % 16 == 1 then Encode(IntegerToken(AsInteger(v)))
            else if t % 16 == 2 then [0x46] + AsDouble(v)
            else if t % 16 == 3 then Prefixed(0x73, 0x53, v.bytes)
            else if v.PathValue? then Prefixed(0x73, 0x53, PathText(v.path))
            else if t % 16 in {5, 6} then [0x23] + v.bytes
            else Prefixed(0x64, 0x44, v.bytes)
  {
    if v.PathValue? {
      PathRoundTrip(v.path);
    }
    if !ValueToken(v, t).IntegerToken? {
      TokenBytes(ValueToken(v, t));
    }
    hide Encode;
    hide Prefixed;
  }

  /** A missing value is written as zero, as empty data, or as null. */
  lemma BytesOfMissing(t: nat)
    requires CanBeMissing(t)
    ensures IsWritten(MissingValue(t), t)
    ensures ValueBytes(MissingValue(t), t) ==
            if t % 16 == 1 then [0x42, 0]
            else if t % 16 == 2 then [0x46, 0, 0, 0, 0, 0, 0, 0, 0]
            else if t % 16 in {4, 7} then [0x64, 0]
            else [0x30]
  {
    MissingIsWritten(t);
    BytesOfValue(MissingValue(t), t);
    if t % 16 == 1 {
      BytesOfZero();
    } else if t % 16 == 2 {
      BigEndianOfZero(8);
    }
    hide ValueBytes;
    hide Encode;
  }

  lemma BytesOfZero()
    ensures Encode(IntegerToken(0)) == [0x42, 0]
  {
    var u := IntegerLayout(0);
    hide Encode;
  }

  lemma {:induction false} BigEndianOfZero(n: nat)
    ensures BigEndian(0, n) == seq(n, _ => 0)
  {
    if n > 0 {
      BigEndianOfZero(n - 1);
    }
  }

  /** An array or a set stands between two marks. */
  lemma BytesOfCollection(v: AttributeValue, t: nat)
    requires StorableValue(v, t) && !v.Single?
    ensures AttributeBytes(v, t)
         == [0x5b] + (if v.Array? then ElementBytes(v.elements, t) else MemberBytes(v.members, t)) + [0x5d]
  {
    TokenBytes(BeginArray);
    TokenBytes(EndArray);
    hide Encode;
    hide MemberBytes;
    hide ElementBytes;
  }

  /** An attribute is its name, its type and its value. */
  lemma BytesOfAttribute(item: Item, name: ByteSeq)
    requires IsItem(item) && name in item.types && StorableAttribute(item, name)
    ensures AttributeEntry(item, name)
         == Prefixed(0x73, 0x53, name) + Encode(IntegerToken(item.types[name]))
            + AttributeBytes(AttributeOf(item, name), item.types[name])
  {
    TokenBytes(StringToken(name));
    hide Encode;
    hide Prefixed;
    hide AttributeBytes;
  }

  /** An item is its UUID and, between two marks, its attributes. */
  lemma BytesOfItem(item: Item, names: seq<ByteSeq>)
    requires IsItem(item) && AreStorable(item, names)
    ensures ItemBytes(item, names) == [0x23] + item.uuid + [0x7b] + AttributesBytes(item, names) + [0x7d]
  {
    TokenBytes(UUIDToken(item.uuid));
    TokenBytes(BeginObject);
    TokenBytes(EndObject);
    hide Encode;
    hide AttributesBytes;
  }
}
