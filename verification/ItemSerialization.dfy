/** The code that writes an item into a buffer. */
module ItemSerialization {
  import opened Wrappers
  import opened Sequences
  import opened Bytes
  import opened BinaryWriter
  import opened BinaryReader
  import opened Utf8
  import opened Numbers
  import opened Paths
  import opened ItemFormat

  /** A missing value is written like the answers of a missing object. */
  function OrMissing(v: Option<Value>, t: nat): Value {
    if v.Some? then v.value else MissingValue(t)
  }

  /** What is written without an exception. */
  predicate IsWrittenOrMissing(v: Option<Value>, t: nat) {
    if v.Some? then IsWritten(v.value, t) else INT64_TYPE <= PrimitivePart(t) <= ATTACHMENT_TYPE
  }

  method WritePrimitiveValue(dest: Buffer, v: Option<Value>, t: nat) returns (ok: bool)
    requires dest.Valid()
    requires v.Some? ==> IsPrimitive(v.value, t)
    modifies dest, dest.data
    ensures dest.Valid() && (dest.data == old(dest.data) || fresh(dest.data))
    ensures ok <==> IsWrittenOrMissing(v, t)
    ensures ok ==> IsWritten(OrMissing(v, t), t) && dest.Appends(ValueBytes(OrMissing(v, t), t))
  {
    hide Buffer.Valid;
    hide Buffer.Contents;
    hide Encode;
    hide PathText;
    hide DoubleOf;
    hide DoubleBytes;
    MissingIsWritten(t);
    ok := true;
    if v == Some(NullValue) {
      dest.StoreNull();
    } else if PrimitivePart(t) == INT64_TYPE {
      dest.StoreInteger(AsInteger(OrMissing(v, t)));
    } else if PrimitivePart(t) == DOUBLE_TYPE {
      dest.StoreDouble(AsDouble(OrMissing(v, t)));
    } else if PrimitivePart(t) == STRING_TYPE {
      ok := dest.StoreString(if v.Some? then Some(v.value.bytes) else None);
    } else if PrimitivePart(t) == BLOB_TYPE {
      ok := dest.StoreBytes(if v.Some? then v.value.bytes else []);
    } else if PrimitivePart(t) == COMPOSITE_REFERENCE_TYPE {
      ok := WriteAsUUID(dest, v);
    } else if PrimitivePart(t) == REFERENCE_TYPE {
      if v.Some? && v.value.PathValue? {
        PathRoundTrip(v.value.path);
        ok := dest.StoreString(Some(PathText(v.value.path)));
      } else {
        ok := WriteAsUUID(dest, v);
      }
    } else if PrimitivePart(t) == ATTACHMENT_TYPE {
      ok := dest.StoreBytes(if v.Some? then v.value.bytes else []);
    } else {
      ok := false;
    }
  }

  /** Asks a value for the bytes of its UUID, which raises for a path after the tag was stored. */
  method WriteAsUUID(dest: Buffer, v: Option<Value>) returns (ok: bool)
    requires dest.Valid()
    requires v.Some? ==> (v.value.UUIDValue? && |v.value.bytes| == 16) || v.value.PathValue?
    modifies dest, dest.data
    ensures dest.Valid() && (dest.data == old(dest.data) || fresh(dest.data))
    ensures ok <==> v.None? || v.value.UUIDValue?
    ensures ok ==> dest.Appends(Encode(if v.None? then Null else UUIDToken(v.value.bytes)))
  {
    hide Buffer.Valid;
    hide Buffer.Contents;
    hide Encode;
    if v.Some? && v.value.PathValue? {
      dest.Write([UUID_TAG]);
      return false;
    }
    dest.StoreUUID(if v.Some? then Some(v.value.bytes) else None);
    ok := true;
  }

  method WriteArrayContents(dest: Buffer, elements: seq<Value>, t: nat) returns (ok: bool)
    requires dest.Valid()
    requires forall e :: e in elements ==> IsPrimitive(e, t)
    modifies dest, dest.data
    ensures dest.Valid() && (dest.data == old(dest.data) || fresh(dest.data))
    ensures ok <==> AllElementsStorable(elements, t)
    ensures ok ==> dest.Contents() == old(dest.Contents()) + ElementBytes(elements, t)
  {
    hide Buffer.Valid;
    hide Buffer.Contents;
    hide ValueBytes;
    hide IsWritten;
    hide IsPrimitive;
    ghost var written: ByteSeq := [];
    for i := 0 to |elements|
      invariant dest.Valid() && (dest.data == old(dest.data) || fresh(dest.data))
      invariant AllElementsStorable(elements[..i], t)
      invariant dest.Contents() == old(dest.Contents()) + ElementBytes(elements[..i], t)
    {
      assert elements[i] in elements;
      ok := WritePrimitiveValue(dest, Some(elements[i]), t);
      if !ok {
        return;
      }
      assert elements[..i + 1] == elements[..i] + [elements[i]];
      ElementsAppend(elements[..i], elements[i], t);
    }
    assert elements[..|elements|] == elements;
    ok := true;
  }

  lemma {:induction false} ElementsAppend(elements: seq<Value>, v: Value, t: nat)
    requires AllElementsStorable(elements, t) && IsWritten(v, t)
    ensures AllElementsStorable(elements + [v], t)
    ensures ElementBytes(elements + [v], t) == ElementBytes(elements, t) + ValueBytes(v, t)
  {
    hide ValueBytes;
    hide IsWritten;
    if elements == [] {
      assert ElementBytes([v], t) == ValueBytes(v, t) + ElementBytes([], t);
    } else {
      assert (elements + [v])[1..] == elements[1..] + [v];
      ElementsAppend(elements[1..], v, t);
    }
  }

  /** The token of `v` starts at `start`. */
  ghost predicate TokenAt(bytes: ByteSeq, start: nat, v: Value, t: nat)
    requires IsWritten(v, t)
  {
    start <= |bytes| && ValueBytes(v, t) <= bytes[start..]
  }

  /** A token found by its start is cut out by its length, whatever was written after it. */
  lemma TokenIsCutOut(bytes: ByteSeq, start: nat, v: Value, t: nat)
    requires IsWritten(v, t) && TokenAt(bytes, start, v, t)
    ensures bytes[start..] != []
    ensures LengthOfToken(bytes[start..]) == Some(|ValueBytes(v, t)|)
    ensures |ValueBytes(v, t)| <= |bytes[start..]| && bytes[start..][..|ValueBytes(v, t)|] == ValueBytes(v, t)
  {
    var token, rest := ValueBytes(v, t), bytes[start..][|ValueBytes(v, t)|..];
    TokenRoundTrip(ValueToken(v, t), rest);
    assert bytes[start..] == token + rest;
  }

  /** Where a token starts, as an address: an array and an index. */
  datatype TokenPointer = TokenPointer(data: array<Byte>, offset: nat)

  /** Reallocation releases the array that a pointer refers to; only the current one may be read. */
  predicate Readable(pointer: TokenPointer, temp: Buffer)
    reads temp
  {
    pointer.data == temp.data
  }

  /** The encodings of values, one by one. */
  ghost predicate AreTokensOf(tokens: seq<ByteSeq>, values: seq<Value>, t: nat) {
    && |tokens| == |values|
    && forall i :: 0 <= i < |values| ==>
         IsWritten(values[i], t) && tokens[i] == ValueBytes(values[i], t)
  }

  /** The tokens start at the offsets of the pointers. */
  ghost predicate PointTo(pointers: seq<TokenPointer>, bytes: ByteSeq, values: seq<Value>, t: nat) {
    && |pointers| == |values|
    && forall i :: 0 <= i < |values| ==>
         && IsWritten(values[i], t)
         && TokenAt(bytes, pointers[i].offset, values[i], t)
  }

  /** Writing began with an empty buffer of `size` allocated bytes at `start`. As long as what was
      written fits, the buffer is the same and all pointers are readable; then the first one is not. */
  ghost predicate Tracked(temp: Buffer, pointers: seq<TokenPointer>, start: array<Byte>, size: nat)
    reads temp
  {
    if temp.length <= size then
      && temp.data == start
      && temp.allocatedLength == size
      && forall p :: p in pointers ==> Readable(p, temp)
    else
      temp.data != start && pointers != [] && pointers[0].data == start
  }

  lemma NothingTracked(temp: Buffer)
    requires temp.Valid() && temp.length == 0
    ensures Tracked(temp, [], temp.data, temp.allocatedLength)
  {
  }

  /** Writes one member of a set, and gives the pointer to its token. */
  method WriteMember(temp: Buffer, v: Value, t: nat, ghost pointers: seq<TokenPointer>, ghost start: array<Byte>,
                     ghost size: nat)
    returns (ok: bool, pointer: TokenPointer)
    requires temp.Valid() && IsPrimitive(v, t)
    requires Tracked(temp, pointers, start, size) && (pointers == [] ==> temp.length == 0 && temp.data == start)
    modifies temp, temp.data
    ensures temp.Valid() && (temp.data == old(temp.data) || fresh(temp.data))
    ensures ok <==> IsWritten(v, t)
    ensures ok ==> temp.Contents() == old(temp.Contents()) + ValueBytes(v, t)
    ensures ok ==> pointer.offset == |old(temp.Contents())|
    ensures ok ==> Tracked(temp, pointers + [pointer], start, size)
  {
    hide Buffer.Valid;
    hide Buffer.Contents;
    hide ValueBytes;
    hide IsWritten;
    hide IsPrimitive;
    temp.Bounds();
    pointer := TokenPointer(temp.data, temp.length);
    assert pointers != [] ==> pointers[0] in pointers;
    ok := WritePrimitiveValue(temp, Some(v), t);
  }

  /** Writes the members of a set to the temporary buffer, remembering a pointer to each one. All
      pointers stay readable if and only if the members fit what the buffer has allocated. */
  method WriteMembers(temp: Buffer, members: set<Value>, t: nat)
    returns (ok: bool, pointers: seq<TokenPointer>, ghost values: seq<Value>, ghost tokens: seq<ByteSeq>)
    requires temp.Valid() && temp.length == 0 && forall v :: v in members ==> IsPrimitive(v, t)
    modifies temp, temp.data
    ensures temp.Valid() && (temp.data == old(temp.data) || fresh(temp.data))
    ensures ok <==> AllStorable(members, t)
    ensures ok ==> PointTo(pointers, temp.Contents(), values, t) && AreTokensOf(tokens, values, t)
    ensures ok ==> multiset(tokens) == EncodingsOf(members, t) && temp.length == |Concat(tokens)|
    ensures ok ==> Tracked(temp, pointers, old(temp.data), old(temp.allocatedLength))
  {
    pointers, values, tokens := [], [], [];
    var left := members;
    temp.Bounds();
    assert temp.Contents() == [];
    hide Buffer.Valid;
    hide Buffer.Contents;
    hide ValueBytes;
    hide TokenAt;
    hide EncodingsOf;
    hide IsWritten;
    hide IsPrimitive;
    NothingAccounted(members, t);
    hide Accounted;
    hide Tracked;
    NothingTracked(temp);
    while left != {}
      invariant temp.Valid() && (temp.data == old(temp.data) || fresh(temp.data))
      invariant PointTo(pointers, temp.Contents(), values, t) && AreTokensOf(tokens, values, t)
      invariant Accounted(tokens, members, left, t) && left <= members
      invariant temp.Contents() == Concat(tokens)
      invariant Tracked(temp, pointers, old(temp.data), old(temp.allocatedLength))
      invariant pointers == [] ==> temp.length == 0 && temp.data == old(temp.data)
      decreases |left|
    {
      var v :| v in left;
      ghost var before := temp.Contents();
      var pointer;
      ok, pointer := WriteMember(temp, v, t, pointers, old(temp.data), old(temp.allocatedLength));
      if !ok {
        return;
      }
      PointersStay(pointers, pointer, before, temp.Contents(), values, v, t);
      TokensGrow(tokens, values, v, t);
      EncodingsShrink(tokens, members, left, v, t);
      pointers := pointers + [pointer];
      values := values + [v];
      tokens := tokens + [ValueBytes(v, t)];
      left := left - {v};
    }
    ok := true;
    AllAccounted(tokens, members, t);
    temp.Bounds();
  }

  /** The tokens written, and those to be written, are those of the set. */
  ghost predicate Accounted(tokens: seq<ByteSeq>, members: set<Value>, left: set<Value>, t: nat) {
    && left <= members
    && AllStorable(members - left, t)
    && (AllStorable(members, t) ==> multiset(tokens) + EncodingsOf(left, t) == EncodingsOf(members, t))
  }

  lemma EncodingsShrink(tokens: seq<ByteSeq>, members: set<Value>, left: set<Value>, v: Value, t: nat)
    requires Accounted(tokens, members, left, t) && v in left && IsWritten(v, t)
    ensures Accounted(tokens + [ValueBytes(v, t)], members, left - {v}, t)
  {
    StorableWith(members - left, v, t);
    assert members - (left - {v}) == members - left + {v};
    if AllStorable(members, t) {
      EncodingsMove(tokens, left, v, t);
    }
    hide ValueBytes;
    hide EncodingsOf;
    hide IsWritten;
  }

  lemma StorableWith(members: set<Value>, v: Value, t: nat)
    requires AllStorable(members, t) && IsWritten(v, t)
    ensures AllStorable(members + {v}, t)
  {
    hide IsWritten;
  }

  lemma EncodingsMove(tokens: seq<ByteSeq>, left: set<Value>, v: Value, t: nat)
    requires AllStorable(left, t) && v in left && IsWritten(v, t)
    ensures multiset(tokens + [ValueBytes(v, t)]) + EncodingsOf(left - {v}, t)
            == multiset(tokens) + EncodingsOf(left, t)
  {
    EncodingsWith(left, v, t);
    hide ValueBytes;
    hide EncodingsOf;
    hide IsWritten;
    assert multiset(tokens + [ValueBytes(v, t)]) == multiset(tokens) + multiset{ValueBytes(v, t)};
  }

  lemma AllAccounted(tokens: seq<ByteSeq>, members: set<Value>, t: nat)
    requires Accounted(tokens, members, {}, t)
    ensures AllStorable(members, t) && multiset(tokens) == EncodingsOf(members, t)
  {
    assert members - {} == members;
    NoEncodings(t);
    hide EncodingsOf;
  }

  lemma NothingAccounted(members: set<Value>, t: nat)
    ensures Accounted([], members, members, t)
  {
    hide EncodingsOf;
    assert members - members == {};
  }

  lemma TokensGrow(tokens: seq<ByteSeq>, values: seq<Value>, v: Value, t: nat)
    requires AreTokensOf(tokens, values, t) && IsWritten(v, t)
    ensures AreTokensOf(tokens + [ValueBytes(v, t)], values + [v], t)
    ensures Concat(tokens + [ValueBytes(v, t)]) == Concat(tokens) + ValueBytes(v, t)
  {
    hide ValueBytes;
    hide IsWritten;
    ConcatAppend(tokens, ValueBytes(v, t));
  }

  lemma NoEncodings(t: nat)
    ensures EncodingsOf({}, t) == multiset{}
  {
  }

  lemma {:induction false} ConcatAppend(tokens: seq<ByteSeq>, token: ByteSeq)
    ensures Concat(tokens + [token]) == Concat(tokens) + token
  {
    if tokens == [] {
      assert Concat([token]) == token + Concat([]);
    } else {
      assert (tokens + [token])[1..] == tokens[1..] + [token];
      ConcatAppend(tokens[1..], token);
    }
  }

  lemma PointersStay(pointers: seq<TokenPointer>, pointer: TokenPointer, before: ByteSeq, after: ByteSeq,
                     values: seq<Value>, v: Value, t: nat)
    requires PointTo(pointers, before, values, t) && IsWritten(v, t)
    requires after == before + ValueBytes(v, t) && pointer.offset == |before|
    ensures PointTo(pointers + [pointer], after, values + [v], t)
  {
    hide ValueBytes;
    forall i | 0 <= i < |values| ensures TokenAt(after, pointers[i].offset, values[i], t) {
      assert after[pointers[i].offset..] == before[pointers[i].offset..] + ValueBytes(v, t);
    }
    assert after[|before|..] == ValueBytes(v, t);
  }

  /** The bytes of the tokens, found by the pointers; fails if one of these is no longer readable. */
  method CutTokens(temp: Buffer, pointers: seq<TokenPointer>, ghost values: seq<Value>, t: nat)
    returns (ok: bool, tokens: seq<ByteSeq>)
    requires temp.Valid() && PointTo(pointers, temp.Contents(), values, t)
    ensures ok <==> forall p :: p in pointers ==> Readable(p, temp)
    ensures ok ==> AreTokensOf(tokens, values, t)
  {
    hide ValueBytes;
    hide LengthOfToken;
    tokens := [];
    for i := 0 to |pointers|
      invariant |tokens| == i
      invariant forall k :: 0 <= k < i ==> Readable(pointers[k], temp) && tokens[k] == ValueBytes(values[k], t)
    {
      if !Readable(pointers[i], temp) {
        return false, [];
      }
      TokenIsCutOut(temp.Contents(), pointers[i].offset, values[i], t);
      var data, offset := pointers[i].data, pointers[i].offset;
      assert data[offset..temp.length] == temp.Contents()[offset..];
      var at := data[offset..temp.length];
      tokens := tokens + [at[..LengthOfToken(at).value]];
    }
    ok := true;
  }

  /** Whether the tokens of a set fit a temporary buffer of the given size. */
  ghost predicate SetFits(members: set<Value>, t: nat, size: nat) {
    AllStorable(members, t) && |MemberBytes(members, t)| <= size
  }

  /** Exactly if everything fits, all pointers are readable. */
  lemma ReadableIffFits(temp: Buffer, pointers: seq<TokenPointer>, start: array<Byte>, size: nat)
    requires Tracked(temp, pointers, start, size)
    ensures (forall p :: p in pointers ==> Readable(p, temp)) <==> temp.length <= size
  {
    if temp.length > size {
      assert pointers[0] in pointers && !Readable(pointers[0], temp);
    }
  }

  /** Writes the members of a set to the temporary buffer, and finds their tokens again. */
  method MemberTokens(temp: Buffer, members: set<Value>, t: nat) returns (ok: bool, tokens: seq<ByteSeq>)
    requires temp.Valid() && forall v :: v in members ==> IsPrimitive(v, t)
    modifies temp, temp.data
    ensures temp.Valid() && (temp.data == old(temp.data) || fresh(temp.data))
    ensures ok <==> SetFits(members, t, old(temp.allocatedLength))
    ensures ok ==> temp.allocatedLength == old(temp.allocatedLength)
    ensures ok ==> multiset(tokens) == EncodingsOf(members, t)
  {
    temp.Clear();
    hide Buffer.Valid;
    hide Buffer.Contents;
    hide AreTokensOf;
    hide PointTo;
    hide EncodingsOf;
    hide MemberBytes;
    hide SortTokens;
    hide IsPrimitive;
    hide AllStorable;
    var pointers;
    ghost var values, written;
    ok, pointers, values, written := WriteMembers(temp, members, t);
    if !ok {
      return false, [];
    }
    ReadableIffFits(temp, pointers, old(temp.data), old(temp.allocatedLength));
    SortedIsInOrder(SortTokens(written), written, members, t);
    ok, tokens := CutTokens(temp, pointers, values, t);
    if ok {
      SameTokens(tokens, written, values, t);
    }
  }

  /** Sets have no order, so their tokens are written in the order of their bytes. This works out if
      and only if all members are written and their tokens fit what the temporary buffer has
      allocated; otherwise the buffer is moved while there are pointers into it, and nothing is
      promised. */
  method WriteSetContents(dest: Buffer, temp: Buffer, members: set<Value>, t: nat) returns (ok: bool)
    requires dest.Valid() && temp.Valid() && dest != temp && dest.data != temp.data
    requires forall v :: v in members ==> IsPrimitive(v, t)
    modifies dest, dest.data, temp, temp.data
    ensures dest.Valid() && (dest.data == old(dest.data) || fresh(dest.data))
    ensures temp.Valid() && (temp.data == old(temp.data) || fresh(temp.data)) && dest.data != temp.data
    ensures ok <==> SetFits(members, t, old(temp.allocatedLength))
    ensures ok ==> temp.allocatedLength == old(temp.allocatedLength)
    ensures ok ==> dest.Contents() == old(dest.Contents()) + MemberBytes(members, t)
    ensures ok ==> exists tokens ::
                     && multiset(tokens) == EncodingsOf(members, t)
                     && InByteOrder(tokens)
                     && dest.Contents() == old(dest.Contents()) + Concat(tokens)
  {
    hide Buffer.Valid;
    hide Buffer.Contents;
    hide EncodingsOf;
    hide MemberBytes;
    hide SortTokens;
    hide IsPrimitive;
    hide AllStorable;
    var tokens;
    ok, tokens := MemberTokens(temp, members, t);
    if ok {
      SortedIsInOrder(SortTokens(tokens), tokens, members, t);
      SortedIsInByteOrder(SortTokens(tokens));
      hide SetFits;
      hide InByteOrder;
      WriteTokens(dest, SortTokens(tokens));
    }
  }

  lemma SameTokens(tokens: seq<ByteSeq>, others: seq<ByteSeq>, values: seq<Value>, t: nat)
    requires AreTokensOf(tokens, values, t) && AreTokensOf(others, values, t)
    ensures tokens == others
  {
    hide ValueBytes;
  }

  method WriteTokens(dest: Buffer, tokens: seq<ByteSeq>)
    requires dest.Valid()
    modifies dest, dest.data
    ensures dest.Valid() && (dest.data == old(dest.data) || fresh(dest.data))
    ensures dest.Contents() == old(dest.Contents()) + Concat(tokens)
  {
    hide Buffer.Valid;
    hide Buffer.Contents;
    for i := 0 to |tokens|
      invariant dest.Valid() && (dest.data == old(dest.data) || fresh(dest.data))
      invariant dest.Contents() + Concat(tokens[i..]) == old(dest.Contents()) + Concat(tokens)
    {
      ghost var before := dest.Contents();
      dest.Write(tokens[i]);
      assert tokens[i..][1..] == tokens[i + 1..];
      Associate(before, tokens[i], Concat(tokens[i + 1..]));
    }
  }

  lemma {:induction false} ConcatLength(tokens: seq<ByteSeq>, i: nat)
    requires i < |tokens|
    ensures |Concat(tokens)| == |tokens[i]| + |Concat(tokens[..i] + tokens[i + 1..])|
  {
    if i > 0 {
      ConcatLength(tokens[1..], i - 1);
      assert (tokens[..i] + tokens[i + 1..])[1..] == tokens[1..][..i - 1] + tokens[1..][i..];
    } else {
      assert tokens[..0] + tokens[1..] == tokens[1..];
    }
  }

  /** The order of tokens does not change their total length. */
  lemma {:induction false} SameTotalLength(tokens: seq<ByteSeq>, others: seq<ByteSeq>)
    requires multiset(tokens) == multiset(others)
    ensures |Concat(tokens)| == |Concat(others)|
  {
    assert |tokens| == |multiset(tokens)| == |others|;
    if tokens != [] {
      assert tokens == [tokens[0]] + tokens[1..];
      assert tokens[0] in multiset(others);
      var i :| 0 <= i < |others| && others[i] == tokens[0];
      assert others == others[..i] + [others[i]] + others[i + 1..];
      assert multiset(others[..i] + others[i + 1..]) == multiset(others) - multiset{tokens[0]};
      assert multiset(tokens[1..]) == multiset(tokens) - multiset{tokens[0]};
      SameTotalLength(tokens[1..], others[..i] + others[i + 1..]);
      ConcatLength(others, i);
    }
  }

  /** Whatever order the members were enumerated in, sorting leaves the same bytes. */
  lemma SortedIsInOrder(sorted: seq<ByteSeq>, tokens: seq<ByteSeq>, members: set<Value>, t: nat)
    requires AllStorable(members, t) && multiset(tokens) == EncodingsOf(members, t)
    requires InTokenOrder(sorted) && multiset(sorted) == multiset(tokens)
    ensures Concat(sorted) == MemberBytes(members, t) && |Concat(tokens)| == |MemberBytes(members, t)|
  {
    SortedIsUnique(sorted, InOrder(EncodingsOf(members, t)));
    SameTotalLength(sorted, tokens);
  }

  // ----- How large a set may be -----

  lemma {:induction false} UUIDTokensLength(tokens: seq<ByteSeq>)
    requires forall i :: 0 <= i < |tokens| ==> |tokens[i]| == 17
    ensures |Concat(tokens)| == 17 * |tokens|
  {
    if tokens != [] {
      UUIDTokensLength(tokens[1..]);
    }
  }

  lemma StorableUUIDs(members: set<Value>, t: nat)
    requires forall e :: e in members ==> e.UUIDValue? && |e.bytes| == 16 && IsPrimitive(e, t)
    ensures AllStorable(members, t)
    ensures forall e :: e in members ==> |ValueBytes(e, t)| == 17
  {
    forall e | e in members ensures IsWritten(e, t) && |ValueBytes(e, t)| == 17 {
      assert ValueToken(e, t) == UUIDToken(e.bytes);
    }
  }

  /** A set of UUIDs is written right up to 240 members; the 241st moves the temporary buffer. */
  lemma UUIDSetFits(members: set<Value>, t: nat)
    requires forall e :: e in members ==> e.UUIDValue? && |e.bytes| == 16 && IsPrimitive(e, t)
    ensures AllStorable(members, t)
    ensures |MemberBytes(members, t)| == 17 * |members|
    ensures SetFits(members, t, CO_BUFFER_INITIAL_LENGTH) <==> |members| <= 240
  {
    StorableUUIDs(members, t);
    hide ValueBytes;
    EncodingsAre(members, t);
    var tokens := InOrder(EncodingsOf(members, t));
    hide InOrder;
    hide IsPrimitive;
    forall i | 0 <= i < |tokens| ensures |tokens[i]| == 17 {
      assert tokens[i] in multiset(tokens);
    }
    UUIDTokensLength(tokens);
    assert |tokens| == |multiset(tokens)| == |members|;
  }

  // ----- Attributes -----

  /** Whether the value of an attribute is written with a temporary buffer of the given size. */
  ghost predicate ValueFits(v: AttributeValue, t: nat, size: nat) {
    StorableValue(v, t) && (v.Set? ==> SetFits(v.members, t, size))
  }

  function OrMissingAttribute(v: Option<AttributeValue>, t: nat): AttributeValue {
    if v.Some? then v.value else Single(MissingValue(t))
  }

  method WriteValue(dest: Buffer, temp: Buffer, v: Option<AttributeValue>, t: nat) returns (ok: bool)
    requires dest.Valid() && temp.Valid() && dest != temp && dest.data != temp.data
    requires v.Some? ==> HasType(v.value, t)
    modifies dest, dest.data, temp, temp.data
    ensures dest.Valid() && (dest.data == old(dest.data) || fresh(dest.data))
    ensures temp.Valid() && (temp.data == old(temp.data) || fresh(temp.data)) && dest.data != temp.data
    ensures ok <==> (v.Some? || CanBeMissing(t)) && ValueFits(OrMissingAttribute(v, t), t, old(temp.allocatedLength))
    ensures ok ==> temp.allocatedLength == old(temp.allocatedLength)
    ensures ok ==> dest.Contents() == old(dest.Contents()) + AttributeBytes(OrMissingAttribute(v, t), t)
  {
    hide Buffer.Valid;
    hide Buffer.Contents;
    hide Encode;
    hide ValueBytes;
    ValueParts(v, t);
    hide HasType;
    if !IsMultivalued(t) {
      ok := WriteSingle(dest, v, t);
      return;
    }
    ok := WriteCollection(dest, temp, v, t);
  }

  method WriteSingle(dest: Buffer, v: Option<AttributeValue>, t: nat) returns (ok: bool)
    requires dest.Valid() && !IsMultivalued(t)
    requires v.Some? ==> v.value.Single? && IsPrimitive(v.value.value, t)
    modifies dest, dest.data
    ensures dest.Valid() && (dest.data == old(dest.data) || fresh(dest.data))
    ensures var w := OrMissingAttribute(v, t);
            && (ok <==> (v.Some? || CanBeMissing(t)) && StorableValue(w, t))
            && (ok ==> dest.Contents() == old(dest.Contents()) + AttributeBytes(w, t))
  {
    hide Buffer.Valid;
    hide Buffer.Contents;
    hide ValueBytes;
    hide IsPrimitive;
    hide IsWritten;
    hide IsMultivalued;
    MissingIsWritten(t);
    hide MissingValue;
    ok := WritePrimitiveValue(dest, if v.Some? then Some(v.value.value) else None, t);
  }

  method WriteCollection(dest: Buffer, temp: Buffer, v: Option<AttributeValue>, t: nat) returns (ok: bool)
    requires dest.Valid() && temp.Valid() && dest != temp && dest.data != temp.data
    requires IsMultivalued(t)
    requires v.Some? ==> if IsOrdered(t) then v.value.Array? && forall e :: e in v.value.elements ==> IsPrimitive(e, t)
                         else v.value.Set? && forall e :: e in v.value.members ==> IsPrimitive(e, t)
    modifies dest, dest.data, temp, temp.data
    ensures dest.Valid() && (dest.data == old(dest.data) || fresh(dest.data))
    ensures temp.Valid() && (temp.data == old(temp.data) || fresh(temp.data)) && dest.data != temp.data
    ensures ok <==> v.Some? && ValueFits(v.value, t, old(temp.allocatedLength))
    ensures ok ==> temp.allocatedLength == old(temp.allocatedLength)
    ensures ok ==> dest.Contents() == old(dest.Contents()) + AttributeBytes(v.value, t)
  {
    hide Buffer.Valid;
    hide Buffer.Contents;
    hide Encode;
    hide ElementBytes;
    hide MemberBytes;
    hide IsPrimitive;
    hide IsWritten;
    hide IsMultivalued;
    hide IsOrdered;
    ghost var before := dest.Contents();
    dest.StoreBeginArray();
    if v.None? {
      return false;
    }
    ghost var bytes;
    ok, bytes := WriteContents(dest, temp, v.value, t);
    if ok {
      dest.StoreEndArray();
      Parts(before, Encode(BeginArray), bytes, Encode(EndArray));
    }
  }

  /** The elements of an array or set, without the marks. */
  method WriteContents(dest: Buffer, temp: Buffer, v: AttributeValue, t: nat) returns (ok: bool, ghost bytes: ByteSeq)
    requires dest.Valid() && temp.Valid() && dest != temp && dest.data != temp.data
    requires IsMultivalued(t)
    requires if IsOrdered(t) then v.Array? && forall e :: e in v.elements ==> IsPrimitive(e, t)
             else v.Set? && forall e :: e in v.members ==> IsPrimitive(e, t)
    modifies dest, dest.data, temp, temp.data
    ensures dest.Valid() && (dest.data == old(dest.data) || fresh(dest.data))
    ensures temp.Valid() && (temp.data == old(temp.data) || fresh(temp.data)) && dest.data != temp.data
    ensures ok <==> ValueFits(v, t, old(temp.allocatedLength))
    ensures ok ==> temp.allocatedLength == old(temp.allocatedLength)
    ensures ok ==> dest.Contents() == old(dest.Contents()) + bytes
    ensures ok ==> AttributeBytes(v, t) == Encode(BeginArray) + bytes + Encode(EndArray)
  {
    hide Buffer.Valid;
    hide Buffer.Contents;
    hide Encode;
    hide ElementBytes;
    hide MemberBytes;
    hide IsPrimitive;
    hide IsWritten;
    hide IsMultivalued;
    hide IsOrdered;
    if IsOrdered(t) {
      ok := WriteArrayContents(dest, v.elements, t);
      bytes := if ok then ElementBytes(v.elements, t) else [];
    } else {
      ok := WriteSetContents(dest, temp, v.members, t);
      bytes := if ok then MemberBytes(v.members, t) else [];
    }
  }

  /** What a validated value is made of. */
  lemma ValueParts(v: Option<AttributeValue>, t: nat)
    requires v.Some? ==> HasType(v.value, t)
    ensures v.Some? ==>
              match v.value
              case Single(value) => !IsMultivalued(t) && IsPrimitive(value, t)
              case Array(elements) =>
                IsMultivalued(t) && IsOrdered(t) && forall e :: e in elements ==> IsPrimitive(e, t)
              case Set(members) => IsMultivalued(t) && !IsOrdered(t) && forall e :: e in members ==> IsPrimitive(e, t)
  {
  }

  /** Whether an attribute is written with a temporary buffer of the given size. */
  ghost predicate AttributeFits(item: Item, name: ByteSeq, size: nat)
    requires IsItem(item) && name in item.types
  {
    StorableAttribute(item, name) && ValueFits(AttributeOf(item, name), item.types[name], size)
  }

  /** Writes one attribute: its name, its type and its value. */
  method WriteAttribute(buf: Buffer, temp: Buffer, item: Item, prop: ByteSeq) returns (ok: bool)
    requires buf.Valid() && temp.Valid() && buf != temp && buf.data != temp.data
    requires IsItem(item) && prop in item.types
    modifies buf, buf.data, temp, temp.data
    ensures buf.Valid() && (buf.data == old(buf.data) || fresh(buf.data))
    ensures temp.Valid() && (temp.data == old(temp.data) || fresh(temp.data)) && buf.data != temp.data
    ensures ok <==> AttributeFits(item, prop, old(temp.allocatedLength))
    ensures ok ==> temp.allocatedLength == old(temp.allocatedLength)
    ensures ok ==> buf.Contents() == old(buf.Contents()) + AttributeEntry(item, prop)
  {
    hide Buffer.Valid;
    hide Buffer.Contents;
    hide Encode;
    hide AttributeBytes;
    AttributeParts(item, prop);
    hide IsItem;
    hide HasType;
    hide StorableValue;
    hide SetFits;
    hide MissingValue;
    var t := item.types[prop];
    var val := if prop in item.values then Some(item.values[prop]) else None;
    ghost var before := buf.Contents();
    ok := buf.StoreString(Some(prop));
    if !ok {
      return;
    }
    buf.StoreInteger(t);
    ok := WriteValue(buf, temp, val, t);
    if ok {
      Parts(before, Encode(StringToken(prop)), TypeBytes(item, prop), AttributeBytes(AttributeOf(item, prop), t));
    }
  }

  lemma AttributeParts(item: Item, name: ByteSeq)
    requires IsItem(item) && name in item.types
    ensures 0 <= item.types[name] < 0x1_0000_0000
    ensures name in item.values ==> HasType(item.values[name], item.types[name])
  {
  }

  /** Writes the attributes in the order of their names. */
  method WriteAttributes(buf: Buffer, temp: Buffer, item: Item, propsSorted: seq<ByteSeq>) returns (ok: bool)
    requires buf.Valid() && temp.Valid() && buf != temp && buf.data != temp.data
    requires IsItem(item) && forall name :: name in propsSorted ==> name in item.types
    modifies buf, buf.data, temp, temp.data
    ensures buf.Valid() && (buf.data == old(buf.data) || fresh(buf.data))
    ensures ok <==> forall name :: name in propsSorted ==> AttributeFits(item, name, old(temp.allocatedLength))
    ensures ok ==> AreStorable(item, propsSorted)
    ensures ok ==> buf.Contents() == old(buf.Contents()) + AttributesBytes(item, propsSorted)
  {
    hide Buffer.Valid;
    hide Buffer.Contents;
    hide AttributeEntry;
    hide IsItem;
    hide StorableAttribute;
    hide ValueFits;
    for i := 0 to |propsSorted|
      invariant buf.Valid() && (buf.data == old(buf.data) || fresh(buf.data))
      invariant temp.Valid() && (temp.data == old(temp.data) || fresh(temp.data)) && buf.data != temp.data
      invariant temp.allocatedLength == old(temp.allocatedLength)
      invariant forall name :: name in propsSorted[..i] ==> AttributeFits(item, name, old(temp.allocatedLength))
      invariant AreStorable(item, propsSorted[..i])
      invariant buf.Contents() == old(buf.Contents()) + AttributesBytes(item, propsSorted[..i])
    {
      var prop := propsSorted[i];
      assert prop in propsSorted;
      ok := WriteAttribute(buf, temp, item, prop);
      if !ok {
        return;
      }
      assert propsSorted[..i + 1] == propsSorted[..i] + [prop];
      AttributesAppend(item, propsSorted[..i], prop);
    }
    assert propsSorted[..|propsSorted|] == propsSorted;
    ok := true;
  }

  lemma {:induction false} AttributesAppend(item: Item, names: seq<ByteSeq>, name: ByteSeq)
    requires IsItem(item) && AreStorable(item, names) && name in item.types && StorableAttribute(item, name)
    ensures AreStorable(item, names + [name])
    ensures AttributesBytes(item, names + [name]) == AttributesBytes(item, names) + AttributeEntry(item, name)
  {
    hide AttributeEntry;
    hide IsItem;
    hide StorableAttribute;
    if names == [] {
      assert AttributesBytes(item, [name]) == AttributeEntry(item, name) + AttributesBytes(item, []);
    } else {
      assert (names + [name])[1..] == names[1..] + [name];
      AttributesAppend(item, names[1..], name);
    }
  }

  // ----- Items -----

  /** Every set of the item fits a temporary buffer that has not grown. */
  ghost predicate SetsFit(item: Item)
    requires IsItem(item)
  {
    forall name :: name in item.values && item.values[name].Set? ==>
      SetFits(item.values[name].members, item.types[name], CO_BUFFER_INITIAL_LENGTH)
  }

  lemma AllFitIff(item: Item, names: seq<ByteSeq>)
    requires IsItem(item) && forall name :: name in names <==> name in item.types
    ensures StorableItem(item) && SetsFit(item)
       <==> forall name :: name in names ==> AttributeFits(item, name, CO_BUFFER_INITIAL_LENGTH)
    ensures StorableItem(item) ==> AreStorable(item, names)
  {
    hide SetFits;
    hide HasType;
    hide StorableValue;
    hide MissingValue;
    if forall name :: name in names ==> AttributeFits(item, name, CO_BUFFER_INITIAL_LENGTH) {
      forall name | name in item.types
        ensures StorableAttribute(item, name)
        ensures name in item.values && item.values[name].Set? ==>
                  SetFits(item.values[name].members, item.types[name], CO_BUFFER_INITIAL_LENGTH)
      {
        assert AttributeFits(item, name, CO_BUFFER_INITIAL_LENGTH);
      }
    }
  }

  /** Writes an item into a buffer. */
  method WriteItem(buf: Buffer, temp: Buffer, item: Item, propsSorted: seq<ByteSeq>) returns (ok: bool)
    requires buf.Valid() && temp.Valid() && buf != temp && buf.data != temp.data
    requires IsItem(item) && forall name :: name in propsSorted ==> name in item.types
    modifies buf, buf.data, temp, temp.data
    ensures buf.Valid()
    ensures ok <==> forall name :: name in propsSorted ==> AttributeFits(item, name, old(temp.allocatedLength))
    ensures ok ==> AreStorable(item, propsSorted)
    ensures ok ==> buf.Contents() == old(buf.Contents()) + ItemBytes(item, propsSorted)
  {
    hide Buffer.Valid;
    hide Buffer.Contents;
    hide Encode;
    hide AttributesBytes;
    hide AttributeFits;
    hide AreStorable;
    assert |item.uuid| == 16;
    hide IsItem;
    ghost var before := buf.Contents();
    buf.StoreUUID(Some(item.uuid));
    buf.StoreBeginObject();
    ok := WriteAttributes(buf, temp, item, propsSorted);
    if ok {
      buf.StoreEndObject();
      FourParts(before, Encode(UUIDToken(item.uuid)), Encode(BeginObject), AttributesBytes(item, propsSorted),
                Encode(EndObject));
    }
  }

  lemma FourParts(a: ByteSeq, b: ByteSeq, c: ByteSeq, d: ByteSeq, e: ByteSeq)
    ensures a + b + c + d + e == a + (b + c + d + e)
  {
  }

  /** The bytes of an item. They depend on the item and on the order of its attribute names alone:
      not on the order in which the members of a set are enumerated. There is a result if and only
      if every attribute is written without an exception and every set fits the temporary buffer. */
  method DataValue(item: Item, propsSorted: seq<ByteSeq>) returns (result: Option<ByteSeq>)
    requires IsItem(item)
    requires forall name :: name in propsSorted <==> name in item.types
    ensures StorableItem(item) ==> AreStorable(item, propsSorted)
    ensures result == if StorableItem(item) && SetsFit(item) then Some(ItemBytes(item, propsSorted)) else None
  {
    var temp := new Buffer();
    var buf := new Buffer();
    hide Buffer.Valid;
    hide Buffer.Contents;
    hide ItemBytes;
    hide AttributeFits;
    hide IsItem;
    AllFitIff(item, propsSorted);
    hide StorableItem;
    hide SetsFit;
    hide AreStorable;
    var ok := WriteItem(buf, temp, item, propsSorted);
    if !ok {
      return None;
    }
    var bytes := buf.GetData();
    assert [] + ItemBytes(item, propsSorted) == ItemBytes(item, propsSorted);
    result := Some(bytes);
  }

  // ----- A set that does not fit -----

  lemma {:induction false} ManyUUIDs(n: nat) returns (members: set<Value>)
    requires n <= 256
    ensures |members| == n
    ensures forall e :: e in members ==> e.UUIDValue? && |e.bytes| == 16 && e.bytes[15] < n
  {
    if n == 0 {
      return {};
    }
    var others := ManyUUIDs(n - 1);
    var zeros: ByteSeq := seq(15, _ => 0);
    members := others + {UUIDValue(zeros + [n - 1])};
  }

  /** An item of one set. */
  lemma OneSetIsStorable(uuid: ByteSeq, name: ByteSeq, members: set<Value>, t: nat)
    requires |uuid| == 16 && |name| <= UINT32_MAX && IsUtf8(name)
    requires IsValidType(t) && IsMultivalued(t) && !IsOrdered(t) && AllStorable(members, t)
    ensures var item := Item(uuid, map[name := t], map[name := Set(members)]);
            && StorableItem(item)
            && (SetsFit(item) <==> SetFits(members, t, CO_BUFFER_INITIAL_LENGTH))
  {
    hide SetFits;
    hide IsUtf8;
    assert forall e :: e in members ==> IsWritten(e, t) && IsPrimitive(e, t);
    hide IsWritten;
    hide IsPrimitive;
    var item := Item(uuid, map[name := t], map[name := Set(members)]);
    assert IsItem(item);
    assert name in item.types && StorableAttribute(item, name);
    assert name in item.values && item.values[name].Set?;
  }

  /** An item that can be stored, and is not written: it holds a set of 241 UUIDs. */
  lemma LargeSetDoesNotFit(uuid: ByteSeq, name: ByteSeq) returns (item: Item)
    requires |uuid| == 16 && |name| <= UINT32_MAX && IsUtf8(name)
    ensures StorableItem(item) && name in item.values
    ensures item.values[name].Set? && |item.values[name].members| == 241
    ensures !SetsFit(item)
  {
    var members := ManyUUIDs(241);
    var t := COMPOSITE_REFERENCE_TYPE + SET_TYPE;
    assert forall e :: e in members ==> IsPrimitive(e, t);
    assert IsValidType(t) && IsMultivalued(t) && !IsOrdered(t);
    hide *;
    UUIDSetFits(members, t);
    item := Item(uuid, map[name := t], map[name := Set(members)]);
    OneSetIsStorable(uuid, name, members, t);
  }
}
