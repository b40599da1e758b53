/** Reading the binary token format back. */
module BinaryReader {
  import opened Wrappers
  import opened Bytes
  import opened BinaryWriter

  /** What the bytes at the start of a sequence are. The original reads on past the end of bytes
      that stop in the middle of a token; here that is `Truncated`. */
  datatype ReadResult = Read(token: Token, length: nat) | UnknownType | Truncated

  function ReadInteger(bytes: ByteSeq, width: nat): ReadResult {
    if |bytes| < 1 + width then Truncated
    else Read(IntegerToken(ToSigned(FromBigEndian(bytes[1..1 + width]), width)), 1 + width)
  }

  /** A length of `width` bytes, and as many bytes as it says. */
  function ReadPrefixed(bytes: ByteSeq, width: nat, isString: bool): ReadResult {
    if |bytes| < 1 + width then Truncated
    else
      var end := 1 + width + FromBigEndian(bytes[1..1 + width]);
      if |bytes| < end then Truncated
      else Read(if isString then StringToken(bytes[1 + width..end]) else BytesToken(bytes[1 + width..end]), end)
  }

  function ReadFixed(bytes: ByteSeq, length: nat, isDouble: bool): ReadResult {
    if |bytes| < 1 + length then Truncated
    else Read(if isDouble then DoubleToken(bytes[1..1 + length]) else UUIDToken(bytes[1..1 + length]), 1 + length)
  }

  /** The token at the start, decided by its tag. */
  function ReadOne(bytes: ByteSeq): ReadResult
    requires bytes != []
  {
    var tag := bytes[0];
    if tag == INT8_TAG then ReadInteger(bytes, 1)
    else if tag == INT16_TAG then ReadInteger(bytes, 2)
    else if tag == INT32_TAG then ReadInteger(bytes, 4)
    else if tag == INT64_TAG then ReadInteger(bytes, 8)
    else if tag == DOUBLE_TAG then ReadFixed(bytes, 8, true)
    else if tag == SHORT_STRING_TAG then ReadPrefixed(bytes, 1, true)
    else if tag == LONG_STRING_TAG then ReadPrefixed(bytes, 4, true)
    else if tag == SHORT_DATA_TAG then ReadPrefixed(bytes, 1, false)
    else if tag == LONG_DATA_TAG then ReadPrefixed(bytes, 4, false)
    else if tag == UUID_TAG then ReadFixed(bytes, 16, false)
    else if tag == BEGIN_OBJECT_TAG then Read(BeginObject, 1)
    else if tag == END_OBJECT_TAG then Read(EndObject, 1)
    else if tag == BEGIN_ARRAY_TAG then Read(BeginArray, 1)
    else if tag == END_ARRAY_TAG then Read(EndArray, 1)
    else if tag == NULL_TAG then Read(Null, 1)
    else UnknownType
  }

  datatype Outcome = Finished | RaisedUnknownType(tag: Byte) | RanOut

  /** The tokens of a whole sequence, and how reading it ends. */
  function ReadAll(bytes: ByteSeq): (r: (seq<Token>, Outcome))
    decreases |bytes|
  {
    if bytes == [] then ([], Finished)
    else match ReadOne(bytes)
      case Read(token, length) =>
        if 0 < length <= |bytes| then
          var rest := ReadAll(bytes[length..]);
          ([token] + rest.0, rest.1)
        else ([], RanOut)
      case UnknownType => ([], RaisedUnknownType(bytes[0]))
      case Truncated => ([], RanOut)
  }

  lemma ReadOneLength(bytes: ByteSeq)
    requires bytes != [] && ReadOne(bytes).Read?
    ensures 0 < ReadOne(bytes).length <= |bytes|
  {
  }

  /** The length of the token at the start, from its tag and length prefix alone. */
  function LengthOfToken(bytes: ByteSeq): Option<nat>
    requires bytes != []
  {
    var tag := bytes[0];
    if tag == INT8_TAG then Some(2)
    else if tag == INT16_TAG then Some(3)
    else if tag == INT32_TAG then Some(5)
    else if tag == INT64_TAG || tag == DOUBLE_TAG then Some(9)
    else if tag == SHORT_STRING_TAG || tag == SHORT_DATA_TAG then
      if |bytes| < 2 then None else Some(2 + FromBigEndian(bytes[1..2]))
    else if tag == LONG_STRING_TAG || tag == LONG_DATA_TAG then
      if |bytes| < 5 then None else Some(5 + FromBigEndian(bytes[1..5]))
    else if tag == UUID_TAG then Some(17)
    else if tag in {BEGIN_OBJECT_TAG, END_OBJECT_TAG, BEGIN_ARRAY_TAG, END_ARRAY_TAG, NULL_TAG} then Some(1)
    else None
  }

  /** Measuring and reading a token agree, on any bytes. */
  lemma LengthIsWhatIsRead(bytes: ByteSeq)
    requires bytes != [] && ReadOne(bytes).Read?
    ensures LengthOfToken(bytes) == Some(ReadOne(bytes).length)
  {
  }

  // ----- What was written is read -----

  lemma PrefixedBytesRead(tag: Byte, prefix: ByteSeq, data: ByteSeq, rest: ByteSeq, isString: bool)
    requires FromBigEndian(prefix) == |data|
    ensures ReadPrefixed([tag] + prefix + data + rest, |prefix|, isString)
         == Read(if isString then StringToken(data) else BytesToken(data), 1 + |prefix| + |data|)
  {
    hide FromBigEndian;
    SlicesOf([tag], prefix, data, rest);
  }

  lemma SlicesOf(a: ByteSeq, b: ByteSeq, c: ByteSeq, d: ByteSeq)
    ensures var s := a + b + c + d;
            && s[|a|..|a| + |b|] == b
            && s[|a| + |b|..|a| + |b| + |c|] == c
            && s[|a| + |b| + |c|..] == d
  {
  }

  lemma WithLengthReads(shortTag: Byte, longTag: Byte, data: ByteSeq, rest: ByteSeq, isString: bool)
    requires |data| <= UINT32_MAX
    ensures ReadPrefixed(WithLength(shortTag, longTag, data) + rest, if |data| <= UINT8_MAX then 1 else 4, isString)
         == Read(if isString then StringToken(data) else BytesToken(data), |WithLength(shortTag, longTag, data)|)
  {
    IntegerEncoding(0);
    var width := if |data| <= UINT8_MAX then 1 else 4;
    hide Pow256;
    hide ReadPrefixed;
    BigEndianRoundTrip(|data|, width);
    PrefixedBytesRead(if width == 1 then shortTag else longTag, BigEndian(|data|, width), data, rest, isString);
  }

  lemma IntegerReads(value: int, rest: ByteSeq)
    requires Storable(IntegerToken(value))
    ensures var n := IntegerWidth(value);
            ReadInteger(Encode(IntegerToken(value)) + rest, n) == Read(IntegerToken(value), 1 + n)
  {
    var n := IntegerWidth(value);
    var bytes := Encode(IntegerToken(value)) + rest;
    hide Pow256;
    SignedRoundTrip(value, n);
    assert bytes[1..1 + n] == BigEndian(ToUnsigned(value, n), n);
  }

  /** A written token is read back, whatever follows it. */
  lemma TokenRoundTrip(t: Token, rest: ByteSeq)
    requires Storable(t)
    ensures Encode(t) != []
    ensures ReadOne(Encode(t) + rest) == Read(t, |Encode(t)|)
    ensures LengthOfToken(Encode(t) + rest) == Some(|Encode(t)|)
  {
    hide Pow256;
    hide FromBigEndian;
    hide BigEndian;
    var bytes := Encode(t) + rest;
    match t {
      case IntegerToken(value) => IntegerRoundTrip(value, rest);
      case DoubleToken(data) => assert bytes[1..9] == data;
      case StringToken(data) => DataRoundTrip(t, data, rest);
      case BytesToken(data) => DataRoundTrip(t, data, rest);
      case UUIDToken(data) => assert bytes[1..17] == data;
      case _ =>
    }
    hide Encode;
    LengthIsWhatIsRead(bytes);
  }

  lemma IntegerRoundTrip(value: int, rest: ByteSeq)
    requires Storable(IntegerToken(value))
    ensures var t := IntegerToken(value);
            Encode(t) != [] && ReadOne(Encode(t) + rest) == Read(t, |Encode(t)|)
  {
    hide Pow256;
    hide FromBigEndian;
    hide BigEndian;
    IntegerReads(value, rest);
    hide ReadInteger;
  }

  lemma DataRoundTrip(t: Token, data: ByteSeq, rest: ByteSeq)
    requires Storable(t) && (t == StringToken(data) || t == BytesToken(data))
    ensures Encode(t) != [] && ReadOne(Encode(t) + rest) == Read(t, |Encode(t)|)
  {
    hide Pow256;
    hide FromBigEndian;
    hide BigEndian;
    hide ReadPrefixed;
    if t.StringToken? {
      WithLengthReads(SHORT_STRING_TAG, LONG_STRING_TAG, data, rest, true);
    } else {
      WithLengthReads(SHORT_DATA_TAG, LONG_DATA_TAG, data, rest, false);
    }
  }

  /** Reading what was written for any sequence of tokens gives back that sequence. */
  lemma {:induction false} RoundTrip(tokens: seq<Token>)
    requires forall t :: t in tokens ==> Storable(t)
    ensures ReadAll(EncodeAll(tokens)) == (tokens, Finished)
  {
    if tokens != [] {
      var rest := EncodeAll(tokens[1..]);
      RoundTrip(tokens[1..]);
      OneMoreRead(tokens[0], rest);
      assert [tokens[0]] + tokens[1..] == tokens;
    }
  }

  lemma OneMoreRead(t: Token, rest: ByteSeq)
    requires Storable(t)
    ensures ReadAll(Encode(t) + rest) == ([t] + ReadAll(rest).0, ReadAll(rest).1)
  {
    TokenRoundTrip(t, rest);
    hide Encode;
    hide ReadOne;
    assert (Encode(t) + rest)[|Encode(t)|..] == rest;
  }

  /** Written tokens are delivered whatever follows them, also if that raises. */
  lemma {:induction false} TokensAreReadFirst(tokens: seq<Token>, rest: ByteSeq)
    requires forall t :: t in tokens ==> Storable(t)
    ensures ReadAll(EncodeAll(tokens) + rest) == (tokens + ReadAll(rest).0, ReadAll(rest).1)
  {
    hide ReadAll;
    hide Encode;
    if tokens == [] {
      assert EncodeAll(tokens) + rest == rest;
      assert [] + ReadAll(rest).0 == ReadAll(rest).0;
    } else {
      var more := EncodeAll(tokens[1..]) + rest;
      assert EncodeAll(tokens) + rest == Encode(tokens[0]) + more;
      TokensAreReadFirst(tokens[1..], rest);
      OneMoreRead(tokens[0], more);
      assert [tokens[0]] + (tokens[1..] + ReadAll(rest).0) == tokens + ReadAll(rest).0;
    }
  }

  /** So different sequences of tokens are never written as the same bytes. */
  lemma UniquelyDecodable(tokens: seq<Token>, others: seq<Token>)
    requires forall t :: t in tokens ==> Storable(t)
    requires forall t :: t in others ==> Storable(t)
    requires EncodeAll(tokens) == EncodeAll(others)
    ensures tokens == others
  {
    RoundTrip(tokens);
    RoundTrip(others);
  }

  /** No written token is the beginning of another one. */
  lemma PrefixFree(t: Token, u: Token, after: ByteSeq, after': ByteSeq)
    requires Storable(t) && Storable(u)
    requires Encode(t) + after == Encode(u) + after'
    ensures t == u && after == after'
  {
    hide Encode;
    hide ReadOne;
    TokenRoundTrip(t, after);
    TokenRoundTrip(u, after');
    assert (Encode(t) + after)[|Encode(t)|..] == after;
    assert (Encode(u) + after')[|Encode(u)|..] == after';
  }

  // ----- What is read need not be what was written -----

  /** What is read takes at least as many bytes as it would be written in. */
  ghost predicate WritesNoLonger(bytes: ByteSeq, token: Token, length: nat) {
    && length <= |bytes|
    && Storable(token)
    && |Encode(token)| <= length
    && (|Encode(token)| == length ==> Encode(token) == bytes[..length])
  }

  lemma IntegerWritesNoLonger(bytes: ByteSeq, width: nat)
    requires width in {1, 2, 4, 8} && 1 + width <= |bytes| && bytes[0] == IntegerTag(width)
    ensures WritesNoLonger(bytes, ReadInteger(bytes, width).token, 1 + width)
  {
    var digits := bytes[1..1 + width];
    var value := ToSigned(FromBigEndian(digits), width);
    SignedBytesRoundTrip(digits);
    SignedRanges(value);
    hide Pow256;
    hide FromBigEndian;
    hide BigEndian;
    hide ToSigned;
    assert bytes[..1 + width] == [bytes[0]] + digits;
  }

  /** What `ReadPrefixed` takes apart. */
  lemma ReadPrefixedParts(bytes: ByteSeq, width: nat, isString: bool)
    requires width in {1, 4} && bytes != [] && ReadPrefixed(bytes, width, isString).Read?
    ensures var prefix, end := bytes[1..1 + width], ReadPrefixed(bytes, width, isString).length;
            && 1 + width <= end <= |bytes|
            && BigEndian(end - 1 - width, width) == prefix
            && end - 1 - width < Pow256(width)
            && ReadPrefixed(bytes, width, isString).token
               == (if isString then StringToken(bytes[1 + width..end]) else BytesToken(bytes[1 + width..end]))
  {
    hide BigEndian;
    hide Pow256;
    FromBigEndianRoundTrip(bytes[1..1 + width]);
  }

  lemma WholeOfParts(bytes: ByteSeq, m: nat, n: nat)
    requires 1 <= m <= n <= |bytes|
    ensures bytes[..n] == [bytes[0]] + bytes[1..m] + bytes[m..n]
  {
  }

  lemma DataWritesNoLonger(bytes: ByteSeq, width: nat, isString: bool)
    requires width in {1, 4} && bytes != [] && ReadPrefixed(bytes, width, isString).Read?
    requires bytes[0] == if isString then (if width == 1 then SHORT_STRING_TAG else LONG_STRING_TAG)
                         else (if width == 1 then SHORT_DATA_TAG else LONG_DATA_TAG)
    ensures WritesNoLonger(bytes, ReadPrefixed(bytes, width, isString).token,
                           ReadPrefixed(bytes, width, isString).length)
  {
    ReadPrefixedParts(bytes, width, isString);
    var end := ReadPrefixed(bytes, width, isString).length;
    var short, long := if isString then SHORT_STRING_TAG else SHORT_DATA_TAG, if isString then LONG_STRING_TAG
    else LONG_DATA_TAG;
    hide ReadPrefixed;
    hide Pow256;
    hide BigEndian;
    hide FromBigEndian;
    PrefixedWritesNoLonger(bytes, width, short, long, end);
    hide WithLength;
  }

  lemma PrefixedWritesNoLonger(bytes: ByteSeq, width: nat, short: Byte, long: Byte, end: nat)
    requires width in {1, 4} && 1 + width <= end <= |bytes| && bytes[0] == (if width == 1 then short else long)
    requires BigEndian(end - 1 - width, width) == bytes[1..1 + width] && end - 1 - width < Pow256(width)
    ensures var encoded := WithLength(short, long, bytes[1 + width..end]);
            && end - 1 - width <= UINT32_MAX
            && |encoded| <= end && (|encoded| == end ==> encoded == bytes[..end])
  {
    IntegerEncoding(0);
    WithLengthParts(short, long, bytes[1 + width..end]);
    hide WithLength;
    hide Pow256;
    hide BigEndian;
    WholeOfParts(bytes, 1 + width, end);
  }

  /** The reader also takes integers and lengths in a wider form than the writer's. Writing what it
      reads is never longer, and reproduces the bytes exactly if they have the writer's length. */
  lemma ReadThenWrite(bytes: ByteSeq)
    requires bytes != [] && ReadOne(bytes).Read?
    ensures var token, length := ReadOne(bytes).token, ReadOne(bytes).length;
            && WritesNoLonger(bytes, token, length)
            && (Encode(token) == bytes[..length] <==> |Encode(token)| == length)
  {
    hide Encode;
    hide FromBigEndian;
    var tag := bytes[0];
    if tag == INT8_TAG {
      IntegerWritesNoLonger(bytes, 1);
    } else if tag == INT16_TAG {
      IntegerWritesNoLonger(bytes, 2);
    } else if tag == INT32_TAG {
      IntegerWritesNoLonger(bytes, 4);
    } else if tag == INT64_TAG {
      IntegerWritesNoLonger(bytes, 8);
    } else if tag == SHORT_STRING_TAG || tag == SHORT_DATA_TAG {
      DataWritesNoLonger(bytes, 1, tag == SHORT_STRING_TAG);
    } else if tag == LONG_STRING_TAG || tag == LONG_DATA_TAG {
      DataWritesNoLonger(bytes, 4, tag == LONG_STRING_TAG);
    } else {
      FixedWritesNoLonger(bytes);
    }
  }

  lemma FixedWritesNoLonger(bytes: ByteSeq)
    requires bytes != [] && ReadOne(bytes).Read?
    requires ReadOne(bytes).token.DoubleToken? || ReadOne(bytes).token.UUIDToken? || ReadOne(bytes).length == 1
    ensures WritesNoLonger(bytes, ReadOne(bytes).token, ReadOne(bytes).length)
  {
    hide FromBigEndian;
    var length := ReadOne(bytes).length;
    assert bytes[..length] == [bytes[0]] + bytes[1..length];
  }

  // ----- The reader -----

  /** Reads all tokens in order; each goes to a callback, which here is a list. An unknown tag
      raises after the tokens before it were delivered. */
  method ReadTokens(bytes: ByteSeq) returns (delivered: seq<Token>, outcome: Outcome)
    ensures delivered == ReadAll(bytes).0 && outcome == ReadAll(bytes).1
  {
    hide ReadOne;
    delivered := [];
    var pos := 0;
    assert bytes[0..] == bytes;
    while pos < |bytes|
      invariant 0 <= pos <= |bytes|
      invariant ReadAll(bytes).0 == delivered + ReadAll(bytes[pos..]).0
      invariant ReadAll(bytes).1 == ReadAll(bytes[pos..]).1
    {
      match ReadOne(bytes[pos..]) {
        case UnknownType =>
          return delivered, RaisedUnknownType(bytes[pos]);
        case Truncated =>
          return delivered, RanOut;
        case Read(token, length) =>
          ReadOneLength(bytes[pos..]);
          assert bytes[pos..][length..] == bytes[pos + length..];
          delivered := delivered + [token];
          pos := pos + length;
      }
    }
    outcome := Finished;
  }
}
