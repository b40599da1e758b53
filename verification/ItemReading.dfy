/** The object that collects an item from the callbacks of the token reader. */
module ItemReading {
  import opened Wrappers
  import opened Bytes
  import opened BinaryWriter
  import opened BinaryReader
  import opened Utf8
  import opened Numbers
  import opened Paths
  import opened ItemFormat
  import opened ItemCodec

  class ItemReader {
    var uuid: ByteSeq
    var types: map<ByteSeq, int>
    var values: map<ByteSeq, AttributeValue>
    var currentProperty: Option<ByteSeq>
    var currentType: nat
    var isReadingMultivalue: bool
    var multivalue: Option<AttributeValue>
    var phase: Phase

    ghost function State(): ReaderState
      reads this
    {
      ReaderState(uuid, types, values, currentProperty, currentType, isReadingMultivalue, multivalue, phase)
    }

    constructor ()
      ensures State() == InitialState
    {
      uuid, types, values, currentProperty := [], map[], map[], None;
      currentType, isReadingMultivalue, multivalue := 0, false, None;
      phase := ExpectObjectUUID;
    }

    method ReadObjectValue(v: Value)
      modifies this
      ensures State() == TakeValue(old(State()), v)
    {
      if isReadingMultivalue {
        if multivalue.Some? {
          multivalue := Some(Added(multivalue.value, v));
        }
      } else if currentProperty.None? {
        phase := Stopped;
      } else {
        values := values[currentProperty.value := Single(v)];
        phase := ExpectProperty;
      }
    }

    method ReadInt64(val: int)
      requires phase != Stopped
      modifies this
      ensures State() == Step(old(State()), IntegerToken(val))
    {
      if phase == ExpectValue {
        ReadObjectValue(IntValue(val));
      } else if phase == ExpectType {
        currentType := val % 0x1_0000_0000;
        if currentProperty.None? {
          phase := Stopped;
        } else {
          types := types[currentProperty.value := val];
          phase := ExpectValue;
        }
      } else {
        phase := ErrorPhase;
      }
    }

    method ReadDouble(val: ByteSeq)
      requires phase != Stopped
      modifies this
      ensures State() == Step(old(State()), DoubleToken(val))
    {
      if phase == ExpectValue {
        ReadObjectValue(DoubleValue(val));
      } else {
        phase := ErrorPhase;
      }
    }

    /** A string that is not UTF-8 arrives as nil. */
    method ReadObjectNil()
      modifies this
      ensures State() == TakeNil(old(State()))
    {
      if isReadingMultivalue || currentProperty.None? {
        phase := Stopped;
      } else {
        values := values - {currentProperty.value};
        phase := ExpectProperty;
      }
    }

    method ReadString(bytes: ByteSeq)
      requires phase != Stopped
      modifies this
      ensures State() == Step(old(State()), StringToken(bytes))
    {
      var val := if IsUtf8(bytes) then Some(bytes) else None;
      if phase == ExpectValue {
        if PrimitivePart(currentType) == REFERENCE_TYPE {
          var path := if val.Some? then TextPath(val.value) else None;
          if path.None? {
            phase := Stopped;
          } else {
            ReadObjectValue(PathValue(path.value));
          }
        } else if PrimitivePart(currentType) == STRING_TYPE {
          if val.None? {
            ReadObjectNil();
          } else {
            ReadObjectValue(StringValue(val.value));
          }
        } else {
          phase := ErrorPhase;
        }
      } else if phase == ExpectProperty {
        currentProperty := val;
        phase := ExpectType;
      } else {
        phase := ErrorPhase;
      }
    }

    method ReadUUID(val: ByteSeq)
      requires phase != Stopped
      modifies this
      ensures State() == Step(old(State()), UUIDToken(val))
    {
      if phase == ExpectValue {
        ReadObjectValue(UUIDValue(val));
      } else if phase == ExpectObjectUUID {
        uuid := val;
        phase := ExpectProperty;
      } else {
        phase := ErrorPhase;
      }
    }

    method ReadBytes(val: ByteSeq)
      requires phase != Stopped
      modifies this
      ensures State() == Step(old(State()), BytesToken(val))
    {
      if phase != ExpectValue {
        phase := ErrorPhase;
      } else if PrimitivePart(currentType) == ATTACHMENT_TYPE {
        ReadObjectValue(AttachmentValue(val));
      } else {
        ReadObjectValue(BlobValue(val));
      }
    }

    method ReadBeginArray()
      requires phase != Stopped
      modifies this
      ensures State() == Step(old(State()), BeginArray)
    {
      isReadingMultivalue := true;
      if !IsMultivalued(currentType) {
        phase := Stopped;
      } else if IsOrdered(currentType) {
        multivalue := Some(Array([]));
      } else {
        multivalue := Some(Set({}));
      }
    }

    method ReadEndArray()
      requires phase != Stopped
      modifies this
      ensures State() == Step(old(State()), EndArray)
    {
      isReadingMultivalue := false;
      if currentProperty.None? {
        phase := Stopped;
        return;
      }
      values := if multivalue.Some? then values[currentProperty.value := multivalue.value]
                else values - {currentProperty.value};
      multivalue := None;
      phase := ExpectProperty;
    }

    method ReadNull()
      requires phase != Stopped
      modifies this
      ensures State() == Step(old(State()), Null)
    {
      if phase == ExpectValue {
        ReadObjectValue(NullValue);
      } else {
        phase := ErrorPhase;
      }
    }

    /** Calls the callback for a token; those for objects do nothing. */
    method Deliver(token: Token)
      requires phase != Stopped
      modifies this
      ensures State() == Step(old(State()), token)
    {
      match token {
        case IntegerToken(value) => ReadInt64(value);
        case DoubleToken(bytes) => ReadDouble(bytes);
        case StringToken(bytes) => ReadString(bytes);
        case UUIDToken(bytes) => ReadUUID(bytes);
        case BytesToken(bytes) => ReadBytes(bytes);
        case BeginObject =>
        case EndObject =>
        case BeginArray => ReadBeginArray();
        case EndArray => ReadEndArray();
        case Null => ReadNull();
      }
    }
  }

  /** The item of some bytes, unless reading them raised. The error phase does not keep the reader
      from making an item. */
  function ItemOf(data: ByteSeq): Option<Item> {
    var s := RunBytes(InitialState, data);
    if ReadAll(data).1 != Finished || s.phase == Stopped then None else Some(Item(s.uuid, s.types, s.values))
  }

  method InitWithData(data: ByteSeq) returns (item: Option<Item>)
    ensures item == ItemOf(data)
  {
    var tokens, outcome := ReadTokens(data);
    var reader := new ItemReader();
    var i := 0;
    while i < |tokens| && reader.phase != Stopped
      invariant 0 <= i <= |tokens|
      invariant RunTokens(reader.State(), tokens[i..]) == RunTokens(InitialState, tokens)
    {
      assert tokens[i..][0] == tokens[i] && tokens[i..][1..] == tokens[i + 1..];
      reader.Deliver(tokens[i]);
      i := i + 1;
    }
    if reader.phase == Stopped {
      StoppedStays(reader.State(), tokens[i..]);
    }
    if outcome != Finished || reader.phase == Stopped {
      return None;
    }
    item := Some(Item(reader.uuid, reader.types, reader.values));
  }

  /** An item is made even if the reader ends in its error phase. */
  lemma ErrorStillMakesItem(uuid: ByteSeq)
    requires |uuid| == 16
    ensures var data := Encode(UUIDToken(uuid)) + Encode(Null);
            && RunBytes(InitialState, data).phase == ErrorPhase
            && ItemOf(data) == Some(Item(uuid, map[], map[]))
  {
    var tail := Encode(Null) + [];
    assert tail == Encode(Null);
    RunToken(InitialState, UUIDToken(uuid), Encode(Null));
    var s := Step(InitialState, UUIDToken(uuid));
    RunToken(s, Null, []);
    NothingToRead(Step(s, Null));
    hide RunBytes;
    hide ReadAll;
    hide Encode;
  }

  // ----- Which items are read back as they are -----

  /** All numbers of a value are of the kind that the type is for. */
  predicate IsAllOfKind(v: AttributeValue, t: nat) {
    match v
    case Single(value) => IsOfKind(value, t)
    case Array(elements) => forall e :: e in elements ==> IsOfKind(e, t)
    case Set(members) => forall e :: e in members ==> IsOfKind(e, t)
  }

  lemma AsReadIsOfKind(v: Value, t: nat)
    ensures IsOfKind(AsRead(v, t), t)
    ensures AsRead(v, t) == v <==> IsOfKind(v, t)
  {
  }

  lemma {:induction false} ElementsAsReadAreSame(elements: seq<Value>, t: nat)
    ensures ElementsAsRead(elements, t) == elements <==> forall e :: e in elements ==> IsOfKind(e, t)
  {
    hide AsRead;
    hide IsOfKind;
    if elements != [] {
      AsReadIsOfKind(elements[0], t);
      ElementsAsReadAreSame(elements[1..], t);
      assert elements == [elements[0]] + elements[1..];
    }
  }

  lemma MembersAsReadAreSame(members: set<Value>, t: nat)
    ensures (set e | e in members :: AsRead(e, t)) == members <==> forall e :: e in members ==> IsOfKind(e, t)
  {
    hide AsRead;
    hide IsOfKind;
    var readings := set e | e in members :: AsRead(e, t);
    forall e | e in members
      ensures readings == members ==> IsOfKind(e, t)
      ensures IsOfKind(e, t) ==> AsRead(e, t) == e
    {
      AsReadIsOfKind(e, t);
      if e in readings {
        var f :| f in members && AsRead(f, t) == e;
        AsReadIsOfKind(f, t);
      }
    }
  }

  lemma ValueAsReadIsSame(v: AttributeValue, t: nat)
    ensures ValueAsRead(v, t) == v <==> IsAllOfKind(v, t)
  {
    hide AsRead;
    hide IsOfKind;
    match v {
      case Single(value) => AsReadIsOfKind(value, t);
      case Array(elements) => ElementsAsReadAreSame(elements, t);
      case Set(members) => MembersAsReadAreSame(members, t);
    }
  }

  /** Every type has a value, and all numbers are of the kind that their type is for. */
  predicate IsReadAsItIs(item: Item)
    requires IsItem(item)
  {
    && item.types.Keys == item.values.Keys
    && forall name :: name in item.values ==> IsAllOfKind(item.values[name], item.types[name])
  }

  lemma ReadBackIsSame(item: Item)
    requires IsItem(item)
    ensures ReadBack(item) == item <==> IsReadAsItIs(item)
  {
    var back := ReadBack(item);
    assert back.values.Keys == item.types.Keys;
    forall name | name in item.values
      ensures back.values[name] == item.values[name] <==> IsAllOfKind(item.values[name], item.types[name])
    {
      ValueAsReadIsSame(item.values[name], item.types[name]);
    }
    hide HasType;
    hide ValueAsRead;
    hide IsAllOfKind;
  }

  /** What was written for an item makes the item read back, and that is the item itself if and only
      if it holds no broken path, no type without a value and no number of the other kind. */
  lemma WrittenItemIsRead(item: Item, names: seq<ByteSeq>)
    requires StorableItem(item)
    requires forall name :: name in names <==> name in item.types
    ensures ItemOf(ItemBytes(item, names)) == if ItemHoldsBroken(item) then None else Some(ReadBack(item))
    ensures ItemOf(ItemBytes(item, names)) == Some(item) <==> !ItemHoldsBroken(item) && IsReadAsItIs(item)
  {
    StorableIsItem(item);
    hide IsItem;
    hide StorableItem;
    hide ReadBack;
    hide IsReadAsItIs;
    ItemRoundTrip(item, names);
    ReadBackIsSame(item);
  }

  // ----- Items that are not -----

  function OneAttribute(uuid: ByteSeq, name: ByteSeq, t: nat, v: Value): Item {
    Item(uuid, map[name := t], map[name := Single(v)])
  }

  lemma OneAttributeIsItem(uuid: ByteSeq, name: ByteSeq, t: nat, v: Value)
    requires |uuid| == 16 && |name| <= UINT32_MAX && IsUtf8(name)
    requires IsValidType(t) && !IsMultivalued(t) && IsPrimitive(v, t)
    ensures IsItem(OneAttribute(uuid, name, t, v))
    ensures StorableItem(OneAttribute(uuid, name, t, v)) <==> IsWritten(v, t)
    ensures ItemHoldsBroken(OneAttribute(uuid, name, t, v)) <==> IsBroken(v)
  {
    hide IsPrimitive;
    hide IsUtf8;
    hide IsWritten;
    hide IsBroken;
    var item := OneAttribute(uuid, name, t, v);
    assert IsItem(item);
    assert name in item.types && StorableAttribute(item, name) == IsWritten(v, t);
    assert name in item.values && HoldsBroken(item.values[name]) == IsBroken(v);
  }

  lemma OneAttributeReadBack(uuid: ByteSeq, name: ByteSeq, t: nat, v: Value)
    requires IsItem(OneAttribute(uuid, name, t, v))
    ensures ReadBack(OneAttribute(uuid, name, t, v)) == OneAttribute(uuid, name, t, AsRead(v, t))
  {
    hide IsItem;
    hide AsRead;
  }

  lemma OneAttributeIsRead(uuid: ByteSeq, name: ByteSeq, t: nat, v: Value)
    requires |uuid| == 16 && |name| <= UINT32_MAX && IsUtf8(name)
    requires IsValidType(t) && !IsMultivalued(t) && IsWritten(v, t)
    ensures var item := OneAttribute(uuid, name, t, v);
            && StorableItem(item)
            && (forall n :: n in [name] <==> n in item.types)
            && ItemOf(ItemBytes(item, [name]))
               == if IsBroken(v) then None else Some(OneAttribute(uuid, name, t, AsRead(v, t)))
  {
    var item := OneAttribute(uuid, name, t, v);
    assert forall n :: n in [name] <==> n in item.types;
    hide *;
    WrittenIsPrimitive(v, t);
    OneAttributeIsItem(uuid, name, t, v);
    OneAttributeReadBack(uuid, name, t, v);
    WrittenItemIsRead(item, [name]);
  }

  lemma WrittenIsPrimitive(v: Value, t: nat)
    requires IsWritten(v, t)
    ensures IsPrimitive(v, t)
  {
  }

  /** An item that is written, and cannot be read back: its one reference is broken. */
  lemma BrokenPathIsLost(uuid: ByteSeq, name: ByteSeq, v: Value)
    requires |uuid| == 16 && |name| <= UINT32_MAX && IsUtf8(name) && v.PathValue? && v.path.BrokenPath?
    ensures var item := OneAttribute(uuid, name, REFERENCE_TYPE, v);
            && StorableItem(item)
            && (forall n :: n in [name] <==> n in item.types)
            && ItemOf(ItemBytes(item, [name])) == None
  {
    hide *;
    BrokenIsWritten(v);
    OneAttributeIsRead(uuid, name, REFERENCE_TYPE, v);
  }

  lemma BrokenIsWritten(v: Value)
    requires v.PathValue? && v.path.BrokenPath?
    ensures IsValidType(REFERENCE_TYPE) && !IsMultivalued(REFERENCE_TYPE)
    ensures IsWritten(v, REFERENCE_TYPE) && IsBroken(v)
  {
  }

  lemma ThreeHalves() returns (d: Double)
    ensures d == Double(false, 1023, TWO_52 / 2) && d.WellFormed()
    ensures d.IsFinite() && d.Truncated() == 1 && !d.IsWhole()
  {
    d := Double(false, 1023, TWO_52 / 2);
    PowersOfTwo();
  }

  /** Three halves, as an integer attribute, are written, and read as one. */
  lemma FractionIsLost(uuid: ByteSeq, name: ByteSeq) returns (v: Value)
    requires |uuid| == 16 && |name| <= UINT32_MAX && IsUtf8(name)
    ensures v == DoubleValue(DoubleBytes(Double(false, 1023, TWO_52 / 2)))
    ensures var item := OneAttribute(uuid, name, INT64_TYPE, v);
            && StorableItem(item)
            && (forall n :: n in [name] <==> n in item.types)
            && ItemOf(ItemBytes(item, [name])) == Some(OneAttribute(uuid, name, INT64_TYPE, IntValue(1)))
  {
    var d := ThreeHalves();
    v := DoubleValue(DoubleBytes(d));
    DoubleRoundTrip(d);
    hide DoubleBytes;
    hide DoubleOf;
    hide Double.Truncated;
    assert IsWritten(v, INT64_TYPE) && AsRead(v, INT64_TYPE) == IntValue(1);
    hide IsWritten;
    hide AsRead;
    OneAttributeIsRead(uuid, name, INT64_TYPE, v);
    hide StorableItem;
    hide ItemOf;
    hide ItemBytes;
  }

  /** An item of one attribute that has a type, and no value. */
  function OneType(uuid: ByteSeq, name: ByteSeq, t: nat): Item {
    Item(uuid, map[name := t], map[])
  }

  lemma OneTypeIsItem(uuid: ByteSeq, name: ByteSeq, t: nat)
    requires |uuid| == 16 && IsUtf8(name) && t < 0x1_0000_0000
    ensures var item := OneType(uuid, name, t);
            IsItem(item) && !ItemHoldsBroken(item) && AttributeOf(item, name) == Single(MissingValue(t))
  {
    hide IsUtf8;
    hide MissingValue;
  }

  lemma OneTypeIsStorable(uuid: ByteSeq, name: ByteSeq, t: nat)
    requires |name| <= UINT32_MAX
    requires var item := OneType(uuid, name, t);
             IsItem(item) && AttributeOf(item, name) == Single(MissingValue(t))
    ensures StorableItem(OneType(uuid, name, t)) <==> CanBeMissing(t)
  {
    MissingIsWritten(t);
    hide MissingValue;
    hide IsWritten;
    hide IsItem;
    hide AttributeOf;
    hide PrimitivePart;
    hide IsMultivalued;
    var item := OneType(uuid, name, t);
    assert name in item.types && StorableAttribute(item, name) == CanBeMissing(t);
  }

  lemma OneTypeReadBack(uuid: ByteSeq, name: ByteSeq, t: nat)
    requires var item := OneType(uuid, name, t);
             IsItem(item) && AttributeOf(item, name) == Single(MissingValue(t))
    ensures ReadBack(OneType(uuid, name, t)) == OneAttribute(uuid, name, t, MissingValue(t))
  {
    MissingIsWritten(t);
    hide IsItem;
    hide AttributeOf;
    hide AsRead;
    hide MissingValue;
    var item := OneType(uuid, name, t);
    assert item.types.Keys == {name};
  }

  /** A type without a value is written only if it is univalued and known, and is read with a value. */
  lemma MissingValueIsRead(uuid: ByteSeq, name: ByteSeq, t: nat)
    requires |uuid| == 16 && |name| <= UINT32_MAX && IsUtf8(name) && t < 0x1_0000_0000
    ensures var item := OneType(uuid, name, t);
            && IsItem(item)
            && (StorableItem(item) <==> CanBeMissing(t))
            && (forall n :: n in [name] <==> n in item.types)
            && (CanBeMissing(t) ==>
                  ItemOf(ItemBytes(item, [name])) == Some(OneAttribute(uuid, name, t, MissingValue(t))))
  {
    var item := OneType(uuid, name, t);
    assert forall n :: n in [name] <==> n in item.types;
    hide *;
    OneTypeIsItem(uuid, name, t);
    OneTypeIsStorable(uuid, name, t);
    if CanBeMissing(t) {
      OneTypeReadBack(uuid, name, t);
      WrittenItemIsRead(item, [name]);
    }
  }

  /** A path in a composite reference passes the validation, and is not written. */
  lemma PathForUUIDIsNotWritten(uuid: ByteSeq, name: ByteSeq, path: Path)
    requires |uuid| == 16 && |name| <= UINT32_MAX && IsUtf8(name) && path.WellFormed()
    ensures var item := OneAttribute(uuid, name, COMPOSITE_REFERENCE_TYPE, PathValue(path));
            IsItem(item) && !StorableItem(item)
  {
    hide *;
    PathForUUIDIsAccepted(path);
    OneAttributeIsItem(uuid, name, COMPOSITE_REFERENCE_TYPE, PathValue(path));
  }

  lemma PathForUUIDIsAccepted(path: Path)
    requires path.WellFormed()
    ensures IsValidType(COMPOSITE_REFERENCE_TYPE) && !IsMultivalued(COMPOSITE_REFERENCE_TYPE)
    ensures IsPrimitive(PathValue(path), COMPOSITE_REFERENCE_TYPE)
            && !IsWritten(PathValue(path), COMPOSITE_REFERENCE_TYPE)
  {
  }
}
