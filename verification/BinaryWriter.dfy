/** The binary token format, and the growable buffer that it is written to. */
module BinaryWriter {
  import opened Bytes
  import opened Wrappers

  // ----- The format -----

  /** What the writer's functions store. Strings are their UTF-8 bytes and doubles the eight bytes
      of their big-endian representation. */
  datatype Token =
    | IntegerToken(value: int)
    | DoubleToken(bytes: ByteSeq)
    | StringToken(bytes: ByteSeq)
    | BytesToken(bytes: ByteSeq)
    | UUIDToken(bytes: ByteSeq)
    | BeginObject
    | EndObject
    | BeginArray
    | EndArray
    | Null

  const INT8_TAG: Byte := 'B' as int
  const INT16_TAG: Byte := 'i' as int
  const INT32_TAG: Byte := 'I' as int
  const INT64_TAG: Byte := 'L' as int
  const DOUBLE_TAG: Byte := 'F' as int
  const SHORT_STRING_TAG: Byte := 's' as int
  const LONG_STRING_TAG: Byte := 'S' as int
  const SHORT_DATA_TAG: Byte := 'd' as int
  const LONG_DATA_TAG: Byte := 'D' as int
  const UUID_TAG: Byte := '#' as int
  const BEGIN_OBJECT_TAG: Byte := '{' as int
  const END_OBJECT_TAG: Byte := '}' as int
  const BEGIN_ARRAY_TAG: Byte := '[' as int
  const END_ARRAY_TAG: Byte := ']' as int
  const NULL_TAG: Byte := '0' as int

  const UINT8_MAX := 0xff
  const UINT32_MAX := 0xffff_ffff

  /** The values that the parameters of the writer's functions can take without an exception. */
  predicate Storable(t: Token) {
    match t
    case IntegerToken(value) => -0x8000_0000_0000_0000 <= value <= 0x7fff_ffff_ffff_ffff
    case DoubleToken(bytes) => |bytes| == 8
    case StringToken(bytes) => |bytes| <= UINT32_MAX
    case BytesToken(bytes) => |bytes| <= UINT32_MAX
    case UUIDToken(bytes) => |bytes| == 16
    case _ => true
  }

  /** The narrowest of the four widths that holds an integer. */
  function IntegerWidth(value: int): (n: nat)
    requires -0x8000_0000_0000_0000 <= value <= 0x7fff_ffff_ffff_ffff
    ensures n in {1, 2, 4, 8} && FitsSigned(value, n)
    ensures forall m :: m in {1, 2, 4, 8} && FitsSigned(value, m) ==> n <= m
  {
    SignedRanges(value);
    if -128 <= value <= 127 then 1
    else if -32768 <= value <= 32767 then 2
    else if -0x8000_0000 <= value <= 0x7fff_ffff then 4
    else 8
  }

  function IntegerTag(width: nat): Byte {
    if width == 1 then INT8_TAG else if width == 2 then INT16_TAG else if width == 4 then INT32_TAG else INT64_TAG
  }

  /** A tag, a length of one or four bytes, and the bytes themselves. */
  function WithLength(shortTag: Byte, longTag: Byte, bytes: ByteSeq): ByteSeq {
    if |bytes| <= UINT8_MAX then [shortTag] + BigEndian(|bytes|, 1) + bytes
    else [longTag] + BigEndian(|bytes|, 4) + bytes
  }

  lemma WithLengthParts(shortTag: Byte, longTag: Byte, bytes: ByteSeq)
    ensures UINT8_MAX == 0xff && UINT32_MAX == 0xffff_ffff
    ensures WithLength(shortTag, longTag, bytes) ==
            if |bytes| <= 0xff then [shortTag] + BigEndian(|bytes|, 1) + bytes
            else [longTag] + BigEndian(|bytes|, 4) + bytes
  {
  }

  function Encode(t: Token): ByteSeq
    requires Storable(t)
  {
    match t
    case IntegerToken(value) =>
      var n := IntegerWidth(value);
      [IntegerTag(n)] + BigEndian(ToUnsigned(value, n), n)
    case DoubleToken(bytes) => [DOUBLE_TAG] + bytes
    case StringToken(bytes) => WithLength(SHORT_STRING_TAG, LONG_STRING_TAG, bytes)
    case BytesToken(bytes) => WithLength(SHORT_DATA_TAG, LONG_DATA_TAG, bytes)
    case UUIDToken(bytes) => [UUID_TAG] + bytes
    case BeginObject => [BEGIN_OBJECT_TAG]
    case EndObject => [END_OBJECT_TAG]
    case BeginArray => [BEGIN_ARRAY_TAG]
    case EndArray => [END_ARRAY_TAG]
    case Null => [NULL_TAG]
  }

  lemma IntegerEncoding(value: int)
    requires -0x8000_0000_0000_0000 <= value <= 0x7fff_ffff_ffff_ffff
    ensures var n := IntegerWidth(value);
            Encode(IntegerToken(value)) == [IntegerTag(n)] + BigEndian(ToUnsigned(value, n), n)
    ensures Pow256(1) == 0x100 && Pow256(2) == 0x1_0000 && Pow256(4) == 0x1_0000_0000
    ensures Pow256(8) == 0x1_0000_0000_0000_0000
  {
    assert Pow256(5) == 0x100_0000_0000;
  }

  function EncodeAll(tokens: seq<Token>): ByteSeq
    requires forall t :: t in tokens ==> Storable(t)
  {
    if tokens == [] then [] else Encode(tokens[0]) + EncodeAll(tokens[1..])
  }

  // ----- The buffer -----

  const CO_BUFFER_INITIAL_LENGTH := 4096

  class Buffer {
    var data: array<Byte>
    var length: nat
    var allocatedLength: nat

    /** How often `data` was reallocated, and the most bytes that room was made for. */
    ghost var reallocations: nat
    ghost var peak: nat

    /** The data fits the allocation, and growth is paced: each reallocation needed more than an
        initial length of new bytes. */
    ghost predicate Valid()
      reads this
    {
      && length <= peak
      && length <= allocatedLength == data.Length
      && CO_BUFFER_INITIAL_LENGTH + (CO_BUFFER_INITIAL_LENGTH + 1) * reallocations <= allocatedLength
      && (reallocations > 0 ==> allocatedLength <= peak + CO_BUFFER_INITIAL_LENGTH)
      && (reallocations == 0 ==> allocatedLength == CO_BUFFER_INITIAL_LENGTH)
    }

    ghost function Contents(): ByteSeq
      requires Valid()
      reads this, data
    {
      data[..length]
    }

    /** What every store does: it appends bytes, keeps the largest length up to date, and moves the
        data exactly if they outgrow the allocation. */
    twostate predicate Appends(bytes: ByteSeq)
      requires old(Valid())
      reads this, data
    {
      && Valid()
      && (data == old(data) || fresh(data))
      && length == old(length) + |bytes|
      && Contents() == old(Contents()) + bytes
      && peak == (if length > old(peak) then length else old(peak))
      && if length <= old(allocatedLength) then
           data == old(data) && allocatedLength == old(allocatedLength) && reallocations == old(reallocations)
         else
           fresh(data) && reallocations > old(reallocations)
    }

    /** The promised bound on the number of reallocations. */
    lemma GrowthBound()
      requires Valid()
      ensures reallocations * CO_BUFFER_INITIAL_LENGTH <= peak
      ensures reallocations > 0 ==> reallocations * CO_BUFFER_INITIAL_LENGTH < peak
    {
    }

    lemma Bounds()
      requires Valid()
      ensures length <= allocatedLength && length <= peak && |Contents()| == length
    {
    }

    constructor ()
      ensures Valid() && fresh(data) && Contents() == []
      ensures reallocations == 0 && peak == 0 && allocatedLength == CO_BUFFER_INITIAL_LENGTH
    {
      allocatedLength := CO_BUFFER_INITIAL_LENGTH;
      data := new Byte[CO_BUFFER_INITIAL_LENGTH](_ => 0);
      length := 0;
      reallocations, peak := 0, 0;
    }

    method Clear()
      requires Valid()
      modifies this
      ensures Valid() && data == old(data) && Contents() == []
      ensures allocatedLength == old(allocatedLength) && reallocations == old(reallocations)
      ensures length == 0 && peak == old(peak)
    {
      length := 0;
    }

    /** The bytes stored so far, as the two getters give them. */
    method GetData() returns (bytes: ByteSeq)
      requires Valid()
      ensures bytes == Contents()
    {
      bytes := data[..length];
    }

    /** Makes room for `len` more bytes, keeping those that are there. */
    method EnsureAvailable(len: nat)
      requires Valid()
      modifies this
      ensures Valid() && (data == old(data) || fresh(data)) && Contents() == old(Contents())
      ensures length == old(length) && length + len <= allocatedLength
      ensures reallocations == old(reallocations) + if old(length + len <= allocatedLength) then 0 else 1
      ensures if old(length + len <= allocatedLength) then data == old(data) && allocatedLength == old(allocatedLength)
              else fresh(data)
      ensures peak == if length + len > old(peak) then length + len else old(peak)
    {
      var currlength := length;
      if peak < currlength + len {
        peak := currlength + len;
      }
      if currlength + len > allocatedLength {
        allocatedLength := currlength + len + CO_BUFFER_INITIAL_LENGTH;
        var grown := new Byte[allocatedLength](_ => 0);
        forall i | 0 <= i < data.Length {
          grown[i] := data[i];
        }
        assert grown[..length] == data[..length];
        data := grown;
        reallocations := reallocations + 1;
      }
    }

    method Write(bytes: ByteSeq)
      requires Valid()
      modifies this, data
      ensures Appends(bytes)
      ensures reallocations <= old(reallocations) + 1
    {
      EnsureAvailable(|bytes|);
      ghost var before := data[..length];
      forall i | 0 <= i < |bytes| {
        data[length + i] := bytes[i];
      }
      assert data[..length] == before;
      assert data[length..length + |bytes|] == bytes;
      assert data[..length + |bytes|] == data[..length] + data[length..length + |bytes|];
      length := length + |bytes|;
    }

    // ----- Storing fixed-width numbers -----

    method StoreUint8(value: nat)
      requires Valid() && value < 0x100
      modifies this, data
      ensures Appends(BigEndian(value, 1))
    {
      Write(BigEndian(value, 1));
    }

    method StoreUint16(value: nat)
      requires Valid() && value < 0x1_0000
      modifies this, data
      ensures Appends(BigEndian(value, 2))
    {
      Write(BigEndian(value, 2));
    }

    method StoreUint32(value: nat)
      requires Valid() && value < 0x1_0000_0000
      modifies this, data
      ensures Appends(BigEndian(value, 4))
    {
      Write(BigEndian(value, 4));
    }

    method StoreUint64(value: nat)
      requires Valid() && value < 0x1_0000_0000_0000_0000
      modifies this, data
      ensures Appends(BigEndian(value, 8))
    {
      Write(BigEndian(value, 8));
    }

    // ----- Storing tokens -----

    method StoreInteger(value: int)
      requires Valid()
      requires -0x8000_0000_0000_0000 <= value <= 0x7fff_ffff_ffff_ffff
      modifies this, data
      ensures Appends(Encode(IntegerToken(value)))
    {
      hide Encode;
      hide BigEndian;
      hide Valid;
      hide Contents;
      SignedRanges(value);
      IntegerEncoding(value);
      hide Pow256;
      hide FitsSigned;
      if value <= 127 && value >= -128 {
        Write([INT8_TAG]);
        StoreUint8(ToUnsigned(value, 1));
      } else if value <= 32767 && value >= -32768 {
        Write([INT16_TAG]);
        StoreUint16(ToUnsigned(value, 2));
      } else if value <= 0x7fff_ffff && value >= -0x8000_0000 {
        Write([INT32_TAG]);
        StoreUint32(ToUnsigned(value, 4));
      } else {
        Write([INT64_TAG]);
        StoreUint64(ToUnsigned(value, 8));
      }
    }

    method StoreDouble(swapped: ByteSeq)
      requires Valid() && |swapped| == 8
      modifies this, data
      ensures Appends(Encode(DoubleToken(swapped)))
    {
      hide Valid;
      hide Contents;
      assert Encode(DoubleToken(swapped)) == [DOUBLE_TAG] + swapped;
      hide Encode;
      Write([DOUBLE_TAG]);
      Write(swapped);
    }

    /** The length prefix and the bytes of a string or of data. What is too long raises, and nothing
        is stored. */
    method StoreWithLength(shortTag: Byte, longTag: Byte, bytes: ByteSeq) returns (ok: bool)
      requires Valid()
      modifies this, data
      ensures ok == (|bytes| <= UINT32_MAX)
      ensures if ok then Appends(WithLength(shortTag, longTag, bytes)) else unchanged(this) && unchanged(old(data))
    {
      Bounds();
      hide Valid;
      hide Contents;
      hide BigEndian;
      hide WithLength;
      WithLengthParts(shortTag, longTag, bytes);
      ghost var before := Contents();
      ghost var tag, width := if |bytes| <= 0xff then shortTag else longTag, if |bytes| <= 0xff then 1 else 4;
      if |bytes| <= UINT8_MAX {
        Write([shortTag]);
        StoreUint8(|bytes|);
      } else if |bytes| <= UINT32_MAX {
        Write([longTag]);
        StoreUint32(|bytes|);
      } else {
        return false;
      }
      Write(bytes);
      Parts(before, [tag], BigEndian(|bytes|, width), bytes);
      return true;
    }

    /** A missing string is stored as null. */
    method StoreString(value: Option<ByteSeq>) returns (ok: bool)
      requires Valid()
      modifies this, data
      ensures ok == (value.Some? ==> |value.value| <= UINT32_MAX)
      ensures if ok then Appends(Encode(if value.None? then Null else StringToken(value.value)))
              else unchanged(this) && unchanged(old(data))
    {
      hide WithLength;
      hide Valid;
      hide Contents;
      if value.None? {
        StoreNull();
        return true;
      }
      ok := StoreWithLength(SHORT_STRING_TAG, LONG_STRING_TAG, value.value);
    }

    method StoreBytes(bytes: ByteSeq) returns (ok: bool)
      requires Valid()
      modifies this, data
      ensures ok == (|bytes| <= UINT32_MAX)
      ensures if ok then Appends(Encode(BytesToken(bytes))) else unchanged(this) && unchanged(old(data))
    {
      hide WithLength;
      hide Valid;
      hide Contents;
      ok := StoreWithLength(SHORT_DATA_TAG, LONG_DATA_TAG, bytes);
    }

    method StoreUUID(uuid: Option<ByteSeq>)
      requires Valid()
      requires uuid.Some? ==> |uuid.value| == 16
      modifies this, data
      ensures Appends(Encode(if uuid.None? then Null else UUIDToken(uuid.value)))
    {
      hide Valid;
      hide Contents;
      if uuid.None? {
        StoreNull();
        return;
      }
      assert Encode(UUIDToken(uuid.value)) == [UUID_TAG] + uuid.value;
      hide Encode;
      Write([UUID_TAG]);
      Write(uuid.value);
    }

    method StoreBeginObject()
      requires Valid()
      modifies this, data
      ensures Appends(Encode(BeginObject))
    {
      Write([BEGIN_OBJECT_TAG]);
    }

    method StoreEndObject()
      requires Valid()
      modifies this, data
      ensures Appends(Encode(EndObject))
    {
      Write([END_OBJECT_TAG]);
    }

    method StoreBeginArray()
      requires Valid()
      modifies this, data
      ensures Appends(Encode(BeginArray))
    {
      Write([BEGIN_ARRAY_TAG]);
    }

    method StoreEndArray()
      requires Valid()
      modifies this, data
      ensures Appends(Encode(EndArray))
    {
      Write([END_ARRAY_TAG]);
    }

    method StoreNull()
      requires Valid()
      modifies this, data
      ensures Appends(Encode(Null))
    {
      Write([NULL_TAG]);
    }
  }
}
