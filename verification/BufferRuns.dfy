/** Whole runs of calls on one buffer. */
module BufferRuns {
  import opened Wrappers
  import opened Bytes
  import opened BinaryWriter

  datatype Call = ClearCall | StoreCall(token: Token)

  predicate CallsStorable(calls: seq<Call>) {
    forall c :: c in calls && c.StoreCall? ==> Storable(c.token)
  }

  /** The bytes stored since the last clear. */
  function StoredSinceClear(calls: seq<Call>): ByteSeq
    requires CallsStorable(calls)
  {
    if calls == [] then []
    else
      match calls[|calls| - 1]
      case ClearCall => []
      case StoreCall(token) => StoredSinceClear(calls[..|calls| - 1]) + Encode(token)
  }

  /** The largest length that the buffer has after any of the calls. */
  function LargestLength(calls: seq<Call>): nat
    requires CallsStorable(calls)
  {
    if calls == [] then 0
    else
      var before, now := LargestLength(calls[..|calls| - 1]), |StoredSinceClear(calls)|;
      if before < now then now else before
  }

  lemma {:induction false} LargestIsReached(calls: seq<Call>) returns (k: nat)
    requires CallsStorable(calls)
    ensures k <= |calls| && |StoredSinceClear(calls[..k])| == LargestLength(calls)
    ensures forall n :: 0 <= n <= |calls| ==> |StoredSinceClear(calls[..n])| <= LargestLength(calls)
  {
    hide StoredSinceClear;
    assert calls[..|calls|] == calls;
    if calls == [] {
      assert StoredSinceClear([]) == [] by { NothingStored(); }
      return 0;
    }
    var before := calls[..|calls| - 1];
    k := LargestIsReached(before);
    forall n | 0 <= n <= |calls| ensures |StoredSinceClear(calls[..n])| <= LargestLength(calls) {
      if n < |calls| {
        assert before[..n] == calls[..n];
      }
    }
    if LargestLength(before) < |StoredSinceClear(calls)| {
      k := |calls|;
    } else {
      assert before[..k] == calls[..k];
    }
  }

  lemma NothingStored()
    ensures StoredSinceClear([]) == []
  {
  }

  method StoreToken(buffer: Buffer, token: Token)
    requires buffer.Valid() && Storable(token)
    modifies buffer, buffer.data
    ensures buffer.Appends(Encode(token))
  {
    hide Buffer.Valid;
    hide Buffer.Contents;
    hide Encode;
    var ok;
    match token {
      case IntegerToken(value) => buffer.StoreInteger(value);
      case DoubleToken(bytes) => buffer.StoreDouble(bytes);
      case StringToken(bytes) => ok := buffer.StoreString(Some(bytes));
      case BytesToken(bytes) => ok := buffer.StoreBytes(bytes);
      case UUIDToken(bytes) => buffer.StoreUUID(Some(bytes));
      case BeginObject => buffer.StoreBeginObject();
      case EndObject => buffer.StoreEndObject();
      case BeginArray => buffer.StoreBeginArray();
      case EndArray => buffer.StoreEndArray();
      case Null => buffer.StoreNull();
    }
  }

  /** After any run of stores and clears, the buffer holds what was stored since the last clear, and
      it was reallocated less than once for every initial length of its largest length. */
  method MakeCalls(calls: seq<Call>) returns (buffer: Buffer)
    requires CallsStorable(calls)
    ensures fresh(buffer) && fresh(buffer.data) && buffer.Valid()
    ensures buffer.Contents() == StoredSinceClear(calls)
    ensures buffer.length <= buffer.allocatedLength
    ensures buffer.reallocations > 0 ==> buffer.reallocations * CO_BUFFER_INITIAL_LENGTH < LargestLength(calls)
  {
    hide Encode;
    buffer := new Buffer();
    hide Buffer.Valid;
    hide Buffer.Contents;
    NothingStored();
    for i := 0 to |calls|
      invariant fresh(buffer) && fresh(buffer.data) && buffer.Valid()
      invariant buffer.Contents() == StoredSinceClear(calls[..i])
      invariant buffer.peak == LargestLength(calls[..i])
    {
      assert calls[..i + 1][..i] == calls[..i];
      match calls[i] {
        case ClearCall => buffer.Clear();
        case StoreCall(token) => StoreToken(buffer, token);
      }
      buffer.Bounds();
    }
    assert calls[..|calls|] == calls;
    buffer.GrowthBound();
    buffer.Bounds();
  }
}
