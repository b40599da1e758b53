/** Writing items as bytes and reading them back. */
module ItemCodec {
  import opened Wrappers
  import opened Bytes
  import opened BinaryWriter
  import opened BinaryReader
  import opened Utf8
  import opened Paths
  import opened ItemFormat

  // ----- The reader's state machine -----

  /** `Stopped` is not a phase of the source: an assertion or an exception ended the reading. */
  datatype Phase = ExpectObjectUUID | ExpectProperty | ExpectType | ExpectValue | ErrorPhase | Stopped

  /** No UUID has been read as long as it is empty. */
  datatype ReaderState = ReaderState(
    uuid: ByteSeq, types: map<ByteSeq, int>, values: map<ByteSeq, AttributeValue>, currentProperty: Option<ByteSeq>,
    currentType: nat, isReadingMultivalue: bool, multivalue: Option<AttributeValue>, phase: Phase)

  const InitialState := ReaderState([], map[], map[], None, 0, false, None, ExpectObjectUUID)

  function Added(m: AttributeValue, v: Value): AttributeValue {
    match m
    case Array(elements) => Array(elements + [v])
    case Set(members) => Set(members + {v})
    case Single(_) => m
  }

  /** The value of the current property is known. A dictionary drops the key for a missing value,
      and raises for a missing key. */
  function Completed(s: ReaderState, v: Option<AttributeValue>): ReaderState {
    match (s.currentProperty, v)
    case (None, _) => s.(phase := Stopped)
    case (Some(name), Some(value)) => s.(values := s.values[name := value], phase := ExpectProperty)
    case (Some(name), None) => s.(values := s.values - {name}, phase := ExpectProperty)
  }

  /** A value on its own completes its property; one among several joins them. */
  function TakeValue(s: ReaderState, v: Value): ReaderState {
    if !s.isReadingMultivalue then Completed(s, Some(Single(v)))
    else if s.multivalue.Some? then s.(multivalue := Some(Added(s.multivalue.value, v)))
    else s
  }

  /** A string that is not UTF-8 arrives as nil: an array or a set raises, and a dictionary drops
      the key. */
  function TakeNil(s: ReaderState): ReaderState {
    if s.isReadingMultivalue then s.(phase := Stopped) else Completed(s, None)
  }

  function TakeType(s: ReaderState, t: int): ReaderState {
    match s.currentProperty
    case None => s.(currentType := t % 0x1_0000_0000, phase := Stopped)
    case Some(name) => s.(currentType := t % 0x1_0000_0000, types := s.types[name := t], phase := ExpectValue)
  }

  /** The callbacks: each token moves the machine on, into the error phase, or to a stop. */
  function Step(s: ReaderState, token: Token): ReaderState {
    if s.phase == Stopped then s
    else
      match token
      case BeginObject => s
      case EndObject => s
      case BeginArray =>
        if !IsMultivalued(s.currentType) then s.(isReadingMultivalue := true, phase := Stopped)
        else
          s.(isReadingMultivalue := true, multivalue := Some(if IsOrdered(s.currentType) then Array([]) else Set({})))
      case EndArray =>
        var after := Completed(s.(isReadingMultivalue := false), s.multivalue);
        if after.phase == Stopped then after else after.(multivalue := None)
      case IntegerToken(value) => if s.phase == ExpectType then TakeType(s, value) else StepValue(s, token)
      case StringToken(bytes) =>
        if s.phase == ExpectProperty then
          s.(currentProperty := if IsUtf8(bytes) then Some(bytes) else None, phase := ExpectType)
        else StepValue(s, token)
      case UUIDToken(bytes) =>
        if s.phase == ExpectObjectUUID then s.(uuid := bytes, phase := ExpectProperty)
        else StepValue(s, token)
      case DoubleToken(_) => StepValue(s, token)
      case BytesToken(_) => StepValue(s, token)
      case Null => StepValue(s, token)
  }

  function StepValue(s: ReaderState, token: Token): ReaderState {
    if s.phase == ExpectValue then
      match TokenValue(token, s.currentType)
      case TakenAs(v) => TakeValue(s, v)
      case TakenAsNil => TakeNil(s)
      case Misplaced => s.(phase := ErrorPhase)
      case Refused => s.(phase := Stopped)
    else s.(phase := ErrorPhase)
  }

  function RunTokens(s: ReaderState, tokens: seq<Token>): ReaderState
    decreases |tokens|
  {
    if tokens == [] then s else RunTokens(Step(s, tokens[0]), tokens[1..])
  }

  /** What holds of the reader in every run. */
  predicate Sound(s: ReaderState) {
    && (s.phase == ExpectValue ==>
        && s.currentProperty.Some?
        && s.currentProperty.value in s.types
        && s.types[s.currentProperty.value] % 0x1_0000_0000 == s.currentType)
    && (s.phase != Stopped ==> s.multivalue.Some? == s.isReadingMultivalue)
    && (s.multivalue.Some? ==> !s.multivalue.value.Single?)
  }

  lemma TakingIsSound(s: ReaderState, v: Value)
    requires Sound(s) && s.phase != Stopped
    ensures Sound(TakeValue(s, v)) && Sound(TakeNil(s))
  {
  }

  lemma StepIsSound(s: ReaderState, token: Token)
    requires Sound(s)
    ensures Sound(Step(s, token))
  {
    hide TokenValue;
    hide IsUtf8;
    if s.phase == ExpectValue && TokenValue(token, s.currentType).TakenAs? {
      TakingIsSound(s, TokenValue(token, s.currentType).value);
    } else if s.phase == ExpectValue {
      TakingIsSound(s, NullValue);
    }
    hide TakeValue;
    hide TakeNil;
  }

  /** Every run keeps it, on whatever tokens. */
  lemma {:induction false} RunIsSound(s: ReaderState, tokens: seq<Token>)
    requires Sound(s)
    ensures Sound(RunTokens(s, tokens))
    decreases |tokens|
  {
    hide Sound;
    hide Step;
    if tokens != [] {
      StepIsSound(s, tokens[0]);
      RunIsSound(Step(s, tokens[0]), tokens[1..]);
    }
  }

  /** The string of a reference that is not the text of a path, or one that is nil in an array or set. */
  predicate IsRefusedString(s: ReaderState, token: Token) {
    && token.StringToken?
    && s.phase == ExpectValue
    && (|| (PrimitivePart(s.currentType) == REFERENCE_TYPE && !(IsUtf8(token.bytes) && TextPath(token.bytes).Some?))
        || (PrimitivePart(s.currentType) == STRING_TYPE && !IsUtf8(token.bytes) && s.isReadingMultivalue))
  }

  /** What stops a run: the begin of an array for a type that is not multivalued fails an assertion;
      the end of an array and a type raise if there is no property, because none was read or its
      name was not UTF-8; and so do some strings. All other misplaced tokens lead to the error phase,
      which the end of an array leaves again. */
  lemma WhatStops(before: seq<Token>, token: Token)
    requires RunTokens(InitialState, before).phase != Stopped
    ensures var s := RunTokens(InitialState, before);
            Step(s, token).phase == Stopped
            <==> || (token == BeginArray && !IsMultivalued(s.currentType))
                 || (token == EndArray && s.currentProperty.None?)
                 || (token.IntegerToken? && s.phase == ExpectType && s.currentProperty.None?)
                 || IsRefusedString(s, token)
  {
    hide TextPath;
    hide IsUtf8;
    RunIsSound(InitialState, before);
    hide RunTokens;
  }

  /** What leads to the error phase, and that it changes nothing else: an integer where neither a type
      nor a value is due, a string where neither a name nor a string or reference is, a UUID where
      neither that of the item nor a value is, and other values where none is. */
  lemma WhatFails(s: ReaderState, token: Token)
    requires s.phase != Stopped && s.phase != ErrorPhase
    ensures Step(s, token).phase == ErrorPhase <==>
            || (token.IntegerToken? && s.phase in {ExpectObjectUUID, ExpectProperty})
            || (token.StringToken? && s.phase in {ExpectObjectUUID, ExpectType})
            || (token.StringToken? && s.phase == ExpectValue && s.currentType % 16 !in {3, 5})
            || (token.UUIDToken? && s.phase in {ExpectProperty, ExpectType})
            || ((token.DoubleToken? || token.BytesToken? || token.Null?) && s.phase != ExpectValue)
    ensures Step(s, token).phase == ErrorPhase ==> Step(s, token) == s.(phase := ErrorPhase)
  {
    hide IsUtf8;
    hide TextPath;
  }

  /** A string that is not UTF-8, as a value on its own, leaves its property without a value, also if
      it had one; and so does the end of an array that has not begun. */
  lemma WhatDropsAValue(s: ReaderState, token: Token, name: ByteSeq)
    requires Sound(s) && s.currentProperty == Some(name) && !s.isReadingMultivalue && s.phase != Stopped
    requires || token == EndArray
             || (token.StringToken? && !IsUtf8(token.bytes) && s.phase == ExpectValue && s.currentType % 16 == 3)
    ensures Step(s, token).phase == ExpectProperty && Step(s, token).types == s.types
    ensures forall n :: n in Step(s, token).values <==> n in s.values && n != name
    ensures forall n :: n in Step(s, token).values ==> Step(s, token).values[n] == s.values[n]
  {
    hide IsUtf8;
    hide TextPath;
  }

  /** The error phase is left by the end of an array alone, unless a mark of an array stops the run. */
  lemma WhatLeavesTheErrorPhase(s: ReaderState, token: Token)
    requires s.phase == ErrorPhase
    ensures Step(s, token).phase == ExpectProperty <==> token == EndArray && s.currentProperty.Some?
    ensures Step(s, token).phase == Stopped <==>
            || (token == EndArray && s.currentProperty.None?)
            || (token == BeginArray && !IsMultivalued(s.currentType))
    ensures Step(s, token).phase in {ErrorPhase, ExpectProperty, Stopped}
    ensures token !in {BeginArray, EndArray} ==> Step(s, token) == s
  {
  }

  /** Once stopped, no further token has an effect. */
  lemma {:induction false} StoppedStays(s: ReaderState, tokens: seq<Token>)
    requires s.phase == Stopped
    ensures RunTokens(s, tokens) == s
    decreases |tokens|
  {
    if tokens != [] {
      StoppedStays(s, tokens[1..]);
    }
  }

  /** The state after reading bytes, token by token as they are found. */
  function RunBytes(s: ReaderState, bytes: ByteSeq): ReaderState {
    RunTokens(s, ReadAll(bytes).0)
  }

  /** Reading one written token and then the rest. */
  lemma RunToken(s: ReaderState, t: Token, rest: ByteSeq)
    requires Storable(t)
    ensures RunBytes(s, Encode(t) + rest) == RunBytes(Step(s, t), rest)
    ensures ReadAll(Encode(t) + rest).1 == ReadAll(rest).1
  {
    OneMoreRead(t, rest);
    hide Encode;
    hide ReadAll;
    hide Step;
    assert ([t] + ReadAll(rest).0)[1..] == ReadAll(rest).0;
  }

  // ----- Reading the parts of an item -----

  /** About to read the value of a property. */
  predicate AwaitsValue(s: ReaderState, t: nat) {
    s.phase == ExpectValue && s.currentType == t && s.currentProperty.Some?
  }

  lemma ReadValue(s: ReaderState, v: Value, t: nat, rest: ByteSeq)
    requires AwaitsValue(s, t) && IsWritten(v, t)
    ensures !IsBroken(v) ==> RunBytes(s, ValueBytes(v, t) + rest) == RunBytes(TakeValue(s, AsRead(v, t)), rest)
    ensures IsBroken(v) ==> RunBytes(s, ValueBytes(v, t) + rest).phase == Stopped
    ensures ReadAll(ValueBytes(v, t) + rest).1 == ReadAll(rest).1
  {
    RunToken(s, ValueToken(v, t), rest);
    TokenTellsValue(v, t);
    hide Encode;
    hide ReadAll;
    hide TokenValue;
    hide TakeValue;
    ValueTokenKind(v, t);
    if IsBroken(v) {
      StoppedStays(Step(s, ValueToken(v, t)), ReadAll(rest).0);
    }
  }

  lemma ValueTokenKind(v: Value, t: nat)
    requires IsWritten(v, t)
    ensures var token := ValueToken(v, t);
            !token.BeginArray? && !token.EndArray? && !token.BeginObject? && !token.EndObject?
  {
  }

  function AddedAll(m: AttributeValue, elements: seq<Value>, t: nat): AttributeValue
    decreases |elements|
  {
    if elements == [] then m else AddedAll(Added(m, AsRead(elements[0], t)), elements[1..], t)
  }

  /** The elements of an array as they are read. */
  function ElementsAsRead(elements: seq<Value>, t: nat): seq<Value> {
    if elements == [] then [] else [AsRead(elements[0], t)] + ElementsAsRead(elements[1..], t)
  }

  function ValueAsRead(v: AttributeValue, t: nat): AttributeValue {
    match v
    case Single(value) => Single(AsRead(value, t))
    case Array(elements) => Array(ElementsAsRead(elements, t))
    case Set(members) => Set(set e | e in members :: AsRead(e, t))
  }

  lemma {:induction false} AddedToArray(before: seq<Value>, elements: seq<Value>, t: nat)
    ensures AddedAll(Array(before), elements, t) == Array(before + ElementsAsRead(elements, t))
    decreases |elements|
  {
    hide AsRead;
    if elements == [] {
      assert before + [] == before;
    } else {
      var first := AsRead(elements[0], t);
      AddedToArray(before + [first], elements[1..], t);
      assert before + [first] + ElementsAsRead(elements[1..], t) == before + ElementsAsRead(elements, t);
    }
  }

  lemma {:induction false} AddedToSet(before: set<Value>, elements: seq<Value>, t: nat)
    ensures AddedAll(Set(before), elements, t) == Set(before + set e | e in elements :: AsRead(e, t))
    decreases |elements|
  {
    hide AsRead;
    if elements == [] {
      assert before + (set e | e in elements :: AsRead(e, t)) == before;
    } else {
      var first := AsRead(elements[0], t);
      AddedToSet(before + {first}, elements[1..], t);
      assert before + {first} + (set e | e in elements[1..] :: AsRead(e, t))
             == before + set e | e in elements :: AsRead(e, t);
    }
  }

  lemma {:induction false} ReadElements(s: ReaderState, elements: seq<Value>, t: nat, rest: ByteSeq)
    requires AwaitsValue(s, t) && s.isReadingMultivalue && s.multivalue.Some?
    requires AllElementsStorable(elements, t)
    ensures (forall e :: e in elements ==> !IsBroken(e)) ==>
              RunBytes(s, ElementBytes(elements, t) + rest)
              == RunBytes(s.(multivalue := Some(AddedAll(s.multivalue.value, elements, t))), rest)
    ensures (exists e :: e in elements && IsBroken(e))
            ==> RunBytes(s, ElementBytes(elements, t) + rest).phase == Stopped
    ensures ReadAll(ElementBytes(elements, t) + rest).1 == ReadAll(rest).1
    decreases |elements|
  {
    hide RunBytes;
    hide ReadAll;
    hide ValueBytes;
    if elements == [] {
      assert ElementBytes(elements, t) + rest == rest;
    } else {
      var more := ElementBytes(elements[1..], t);
      assert ElementBytes(elements, t) + rest == ValueBytes(elements[0], t) + (more + rest);
      ReadValue(s, elements[0], t, more + rest);
      ReadElements(TakeValue(s, AsRead(elements[0], t)), elements[1..], t, rest);
    }
  }

  /** Within a type, the bytes tell what the value is read as, unless two paths are broken. */
  lemma BytesTellValue(v: Value, w: Value, t: nat)
    requires IsWritten(v, t)
    requires IsWritten(w, t)
    requires ValueBytes(v, t) == ValueBytes(w, t)
    ensures IsBroken(v) == IsBroken(w)
    ensures !IsBroken(v) ==> AsRead(v, t) == AsRead(w, t)
  {
    PrefixFree(ValueToken(v, t), ValueToken(w, t), [], []);
    TokenTellsValue(v, t);
    TokenTellsValue(w, t);
  }

  ghost predicate IsTokenOf(x: ByteSeq, members: set<Value>, t: nat)
    requires AllStorable(members, t)
  {
    exists e :: e in members && ValueBytes(e, t) == x
  }

  /** The values that a sequence of their encodings stands for. */
  lemma {:induction false} ValuesOf(tokens: seq<ByteSeq>, members: set<Value>, t: nat) returns (elements: seq<Value>)
    requires AllStorable(members, t)
    requires forall x :: x in tokens ==> IsTokenOf(x, members, t)
    ensures |elements| == |tokens|
    ensures forall i :: 0 <= i < |elements| ==> elements[i] in members && ValueBytes(elements[i], t) == tokens[i]
    ensures Concat(tokens) == ElementBytes(elements, t)
  {
    hide ValueBytes;
    hide IsWritten;
    if tokens == [] {
      return [];
    }
    assert tokens[0] in tokens && forall x :: x in tokens[1..] ==> x in tokens;
    var first :| first in members && ValueBytes(first, t) == tokens[0];
    var others := ValuesOf(tokens[1..], members, t);
    elements := [first] + others;
  }

  /** The tokens of a set in their order. */
  lemma TokensOfSet(members: set<Value>, t: nat) returns (tokens: seq<ByteSeq>)
    requires AllStorable(members, t)
    ensures tokens == InOrder(EncodingsOf(members, t))
    ensures forall x :: x in tokens ==> IsTokenOf(x, members, t)
    ensures forall v :: v in members ==> ValueBytes(v, t) in tokens
  {
    hide ValueBytes;
    hide IsWritten;
    EncodingsAre(members, t);
    tokens := InOrder(EncodingsOf(members, t));
    forall x | x in tokens ensures IsTokenOf(x, members, t) {
      assert x in multiset(tokens);
    }
    forall v | v in members ensures ValueBytes(v, t) in tokens {
      assert ValueBytes(v, t) in multiset(tokens);
    }
  }

  /** The values that the bytes of a set stand for: all of them, if none is broken. */
  lemma ValuesOfSet(members: set<Value>, t: nat) returns (elements: seq<Value>)
    requires AllStorable(members, t)
    ensures forall e :: e in elements ==> e in members
    ensures MemberBytes(members, t) == ElementBytes(elements, t)
    ensures (forall e :: e in members ==> !IsBroken(e)) ==>
              (set e | e in elements :: AsRead(e, t)) == set e | e in members :: AsRead(e, t)
    ensures (exists e :: e in members && IsBroken(e)) ==> exists e :: e in elements && IsBroken(e)
  {
    hide ValueBytes;
    hide IsWritten;
    var tokens := TokensOfSet(members, t);
    elements := ValuesOf(tokens, members, t);
    SameReadings(tokens, elements, members, t);
  }

  lemma SameReadings(tokens: seq<ByteSeq>, elements: seq<Value>, members: set<Value>, t: nat)
    requires AllStorable(members, t) && |elements| == |tokens|
    requires forall i :: 0 <= i < |elements| ==> elements[i] in members && ValueBytes(elements[i], t) == tokens[i]
    requires forall v :: v in members ==> ValueBytes(v, t) in tokens
    ensures (forall e :: e in members ==> !IsBroken(e)) ==>
              (set e | e in elements :: AsRead(e, t)) == set e | e in members :: AsRead(e, t)
    ensures (exists e :: e in members && IsBroken(e)) ==> exists e :: e in elements && IsBroken(e)
  {
    hide ValueBytes;
    hide AsRead;
    hide IsBroken;
    hide IsWritten;
    var readings := set e | e in elements :: AsRead(e, t);
    forall v | v in members
      ensures IsBroken(v) ==> exists e :: e in elements && IsBroken(e)
      ensures !IsBroken(v) ==> AsRead(v, t) in readings
    {
      var i :| 0 <= i < |tokens| && tokens[i] == ValueBytes(v, t);
      BytesTellValue(elements[i], v, t);
      assert elements[i] in elements;
    }
  }

  // ----- Reading an item -----

  /** Whether a value holds a broken path. */
  predicate HoldsBroken(v: AttributeValue) {
    match v
    case Single(value) => IsBroken(value)
    case Array(elements) => exists e :: e in elements && IsBroken(e)
    case Set(members) => exists e :: e in members && IsBroken(e)
  }

  /** The value of the current property has been read. */
  function WithValue(s: ReaderState, v: AttributeValue): ReaderState
    requires s.currentProperty.Some?
  {
    s.(values := s.values[s.currentProperty.value := v], phase := ExpectProperty)
  }

  lemma ReadAttributeValue(s: ReaderState, v: AttributeValue, t: nat, rest: ByteSeq)
    requires AwaitsValue(s, t) && !s.isReadingMultivalue && s.multivalue.None? && StorableValue(v, t)
    ensures !HoldsBroken(v) ==>
              RunBytes(s, AttributeBytes(v, t) + rest)
              == RunBytes(WithValue(s, ValueAsRead(v, t)), rest)
    ensures HoldsBroken(v) ==> RunBytes(s, AttributeBytes(v, t) + rest).phase == Stopped
    ensures ReadAll(AttributeBytes(v, t) + rest).1 == ReadAll(rest).1
  {
    hide RunBytes;
    hide ReadAll;
    hide ValueBytes;
    hide MemberBytes;
    match v {
      case Single(value) => ReadValue(s, value, t, rest);
      case Array(elements) =>
        AddedToArray([], elements, t);
        assert [] + ElementsAsRead(elements, t) == ElementsAsRead(elements, t);
        ReadMultivalue(s, elements, t, rest);
      case Set(members) =>
        var elements := ValuesOfSet(members, t);
        AddedToSet({}, elements, t);
        assert {} + (set e | e in elements :: AsRead(e, t)) == set e | e in elements :: AsRead(e, t);
        ReadMultivalue(s, elements, t, rest);
    }
  }

  lemma ReadMultivalue(s: ReaderState, elements: seq<Value>, t: nat, rest: ByteSeq)
    requires AwaitsValue(s, t) && !s.isReadingMultivalue && s.multivalue.None? && IsMultivalued(t)
    requires AllElementsStorable(elements, t)
    ensures var bytes := Encode(BeginArray) + ElementBytes(elements, t) + Encode(EndArray) + rest;
            var v := AddedAll(if IsOrdered(t) then Array([]) else Set({}), elements, t);
            && ((forall e :: e in elements ==> !IsBroken(e)) ==>
                  RunBytes(s, bytes) == RunBytes(WithValue(s, v), rest))
            && ((exists e :: e in elements && IsBroken(e)) ==> RunBytes(s, bytes).phase == Stopped)
            && ReadAll(bytes).1 == ReadAll(rest).1
  {
    hide RunBytes;
    hide ReadAll;
    hide ElementBytes;
    var inner := ElementBytes(elements, t);
    assert Encode(BeginArray) + inner + Encode(EndArray) + rest
           == Encode(BeginArray) + (inner + (Encode(EndArray) + rest));
    RunToken(s, BeginArray, inner + (Encode(EndArray) + rest));
    var s1 := Step(s, BeginArray);
    ReadElements(s1, elements, t, Encode(EndArray) + rest);
    RunToken(s1.(multivalue := Some(AddedAll(s1.multivalue.value, elements, t))), EndArray, rest);
  }

  /** Between attributes, with some of them read. */
  predicate AwaitsAttribute(s: ReaderState) {
    s.phase == ExpectProperty && !s.isReadingMultivalue && s.multivalue.None?
  }

  /** An item as it is read back: missing values are there, and numbers are of the type's kind. */
  function ReadBack(item: Item): Item
    requires IsItem(item)
  {
    Item(item.uuid, item.types, map name | name in item.types :: ValueAsRead(AttributeOf(item, name), item.types[name]))
  }

  /** The state after reading one attribute, and after reading several. */
  function WithAttribute(s: ReaderState, item: Item, name: ByteSeq): ReaderState
    requires IsItem(item) && name in item.types
  {
    s.(currentProperty := Some(name), currentType := item.types[name],
       types := s.types[name := item.types[name]], values := s.values[name := ReadBack(item).values[name]])
  }

  function WithAttributes(s: ReaderState, item: Item, names: seq<ByteSeq>): ReaderState
    requires IsItem(item) && forall name :: name in names ==> name in item.types
    decreases |names|
  {
    if names == [] then s else WithAttributes(WithAttribute(s, item, names[0]), item, names[1..])
  }

  /** The state after reading the name and the type of an attribute. */
  function WithType(s: ReaderState, name: ByteSeq, t: nat): ReaderState {
    s.(currentProperty := Some(name), types := s.types[name := t], currentType := t, phase := ExpectValue)
  }

  /** The name and the type of an attribute. */
  lemma ReadAttributeType(s: ReaderState, name: ByteSeq, t: nat, rest: ByteSeq)
    requires AwaitsAttribute(s) && |name| <= UINT32_MAX && IsUtf8(name) && t < 0x1_0000_0000
    ensures Storable(StringToken(name)) && Storable(IntegerToken(t))
    ensures var bytes := Encode(StringToken(name)) + (Encode(IntegerToken(t)) + rest);
            && RunBytes(s, bytes) == RunBytes(WithType(s, name, t), rest)
            && ReadAll(bytes).1 == ReadAll(rest).1
  {
    hide RunBytes;
    hide ReadAll;
    hide Encode;
    NameAndType(s, name, t);
    hide Step;
    RunToken(s, StringToken(name), Encode(IntegerToken(t)) + rest);
    RunToken(Step(s, StringToken(name)), IntegerToken(t), rest);
  }

  lemma NameAndType(s: ReaderState, name: ByteSeq, t: nat)
    requires AwaitsAttribute(s) && IsUtf8(name) && t < 0x1_0000_0000
    ensures Step(Step(s, StringToken(name)), IntegerToken(t)) == WithType(s, name, t)
  {
    hide IsUtf8;
    hide StepValue;
  }

  lemma ReadAttribute(s: ReaderState, item: Item, name: ByteSeq, rest: ByteSeq)
    requires AwaitsAttribute(s) && StorableItem(item) && name in item.types
    ensures var t, v := item.types[name], AttributeOf(item, name);
            var bytes := Encode(StringToken(name)) + (TypeBytes(item, name) + (AttributeBytes(v, t) + rest));
            && (!HoldsBroken(v) ==> RunBytes(s, bytes) == RunBytes(WithAttribute(s, item, name), rest))
            && (HoldsBroken(v) ==> RunBytes(s, bytes).phase == Stopped)
            && ReadAll(bytes).1 == ReadAll(rest).1
  {
    var t, v := item.types[name], AttributeOf(item, name);
    var value := AttributeBytes(v, t);
    hide RunBytes;
    hide ReadAll;
    hide AttributeBytes;
    hide Encode;
    hide StorableValue;
    hide AttributeOf;
    assert StorableAttribute(item, name);
    ReadAttributeType(s, name, t, value + rest);
    ReadAttributeValue(WithType(s, name, t), v, t, rest);
  }

  lemma {:induction false} ReadAttributes(s: ReaderState, item: Item, names: seq<ByteSeq>, rest: ByteSeq)
    requires AwaitsAttribute(s) && StorableItem(item)
    requires forall name :: name in names ==> name in item.types
    ensures (forall name :: name in names ==> !HoldsBroken(AttributeOf(item, name))) ==>
              RunBytes(s, AttributesBytes(item, names) + rest) == RunBytes(WithAttributes(s, item, names), rest)
    ensures (exists name :: name in names && HoldsBroken(AttributeOf(item, name))) ==>
              RunBytes(s, AttributesBytes(item, names) + rest).phase == Stopped
    ensures ReadAll(AttributesBytes(item, names) + rest).1 == ReadAll(rest).1
    decreases |names|
  {
    StorableIsItem(item);
    hide RunBytes;
    hide ReadAll;
    hide AttributeBytes;
    hide Encode;
    hide StorableItem;
    hide IsItem;
    hide AttributeOf;
    hide HoldsBroken;
    hide ReadBack;
    if names == [] {
      assert AttributesBytes(item, names) + rest == rest;
    } else {
      var name := names[0];
      var more := AttributesBytes(item, names[1..]);
      ReadAttribute(s, item, name, more + rest);
      AttributesUnfold(item, names, rest);
      ReadAttributes(WithAttribute(s, item, name), item, names[1..], rest);
    }
  }

  lemma StorableIsItem(item: Item)
    requires StorableItem(item)
    ensures IsItem(item)
  {
  }

  lemma AttributesUnfold(item: Item, names: seq<ByteSeq>, rest: ByteSeq)
    requires StorableItem(item) && names != [] && forall name :: name in names ==> name in item.types
    ensures var name := names[0];
            && StorableAttribute(item, name)
            && AttributesBytes(item, names) + rest
            == Encode(StringToken(name)) + (TypeBytes(item, name)
               + (AttributeBytes(AttributeOf(item, name), item.types[name])
                  + (AttributesBytes(item, names[1..]) + rest)))
  {
    var name := names[0];
    assert StorableAttribute(item, name);
    var a, b := Encode(StringToken(name)), TypeBytes(item, name);
    var c, d := AttributeBytes(AttributeOf(item, name), item.types[name]), AttributesBytes(item, names[1..]);
    Regroup(a, b, c, d, rest);
  }

  lemma Regroup(a: ByteSeq, b: ByteSeq, c: ByteSeq, d: ByteSeq, e: ByteSeq)
    ensures a + b + c + d + e == a + (b + (c + (d + e)))
  {
    assert a + b + (c + d + e) == a + (b + (c + d + e));
    assert c + d + e == c + (d + e);
  }

  ghost function Restricted<V>(m: map<ByteSeq, V>, names: seq<ByteSeq>): map<ByteSeq, V> {
    map name | name in names && name in m :: m[name]
  }

  lemma RestrictedUnfolds<V>(before: map<ByteSeq, V>, m: map<ByteSeq, V>, names: seq<ByteSeq>)
    requires names != [] && names[0] in m
    ensures before[names[0] := m[names[0]]] + Restricted(m, names[1..]) == before + Restricted(m, names)
  {
    assert names == [names[0]] + names[1..];
  }

  lemma RestrictedToAll<V>(m: map<ByteSeq, V>, names: seq<ByteSeq>)
    requires forall name :: name in names <==> name in m
    ensures map[] + Restricted(m, names) == m
  {
  }

  /** Reading all attributes of an item leaves exactly the types and values of the item read back. */
  lemma {:induction false} AllAttributesRead(s: ReaderState, item: Item, names: seq<ByteSeq>)
    requires IsItem(item) && forall name :: name in names ==> name in item.types
    ensures var after := WithAttributes(s, item, names);
            && after.uuid == s.uuid && (AwaitsAttribute(s) ==> AwaitsAttribute(after))
            && after.types == s.types + Restricted(item.types, names)
            && after.values == s.values + Restricted(ReadBack(item).values, names)
    decreases |names|
  {
    if names == [] {
      assert Restricted(item.types, names) == map[] && Restricted(ReadBack(item).values, names) == map[];
    } else {
      var name := names[0];
      AllAttributesRead(WithAttribute(s, item, name), item, names[1..]);
      var values := ReadBack(item).values;
      assert name in values;
      hide IsItem;
      hide ReadBack;
      hide Restricted;
      RestrictedUnfolds(s.types, item.types, names);
      RestrictedUnfolds(s.values, values, names);
    }
  }

  predicate ItemHoldsBroken(item: Item) {
    exists name :: name in item.values && HoldsBroken(item.values[name])
  }

  lemma BrokenIsNotMissing(item: Item, names: seq<ByteSeq>)
    requires IsItem(item) && forall name :: name in names <==> name in item.types
    ensures ItemHoldsBroken(item) <==> exists name :: name in names && HoldsBroken(AttributeOf(item, name))
  {
    hide HasType;
    if ItemHoldsBroken(item) {
      var name :| name in item.values && HoldsBroken(item.values[name]);
      assert name in item.types && HoldsBroken(AttributeOf(item, name));
    }
  }

  /** What was written for an item reads as the item read back, whatever order its attributes are
      listed in, and the reader ends neither early nor in the error phase. But a broken path stops it. */
  lemma ItemRoundTrip(item: Item, names: seq<ByteSeq>)
    requires StorableItem(item)
    requires forall name :: name in names <==> name in item.types
    ensures ReadAll(ItemBytes(item, names)).1 == Finished
    ensures var s := RunBytes(InitialState, ItemBytes(item, names));
            && (!ItemHoldsBroken(item)
                ==> s.phase == ExpectProperty && Item(s.uuid, s.types, s.values) == ReadBack(item))
            && (ItemHoldsBroken(item) ==> s.phase == Stopped)
  {
    StorableIsItem(item);
    BrokenIsNotMissing(item, names);
    ItemIsRead(item, names);
    var after := WithAttributes(BeforeAttributes(item), item, names);
    AllAttributesRead(BeforeAttributes(item), item, names);
    RestrictedToAll(item.types, names);
    RestrictedToAll(ReadBack(item).values, names);
    hide RunBytes;
    hide ReadAll;
    hide ItemBytes;
    hide StorableItem;
    hide HoldsBroken;
    hide WithAttributes;
  }

  /** The state after the UUID and the begin of the object. */
  function BeforeAttributes(item: Item): ReaderState {
    InitialState.(uuid := item.uuid, phase := ExpectProperty)
  }

  lemma ItemIsRead(item: Item, names: seq<ByteSeq>)
    requires StorableItem(item) && forall name :: name in names ==> name in item.types
    ensures ReadAll(ItemBytes(item, names)).1 == Finished
    ensures var s := RunBytes(InitialState, ItemBytes(item, names));
            && ((forall name :: name in names ==> !HoldsBroken(AttributeOf(item, name))) ==>
                  s == WithAttributes(BeforeAttributes(item), item, names))
            && ((exists name :: name in names && HoldsBroken(AttributeOf(item, name))) ==> s.phase == Stopped)
  {
    StorableIsItem(item);
    hide RunBytes;
    hide ReadAll;
    hide AttributesBytes;
    hide HoldsBroken;
    var attributes := AttributesBytes(item, names);
    var tail := Encode(EndObject) + [];
    Regroup(Encode(UUIDToken(item.uuid)), Encode(BeginObject), attributes, Encode(EndObject), []);
    assert ItemBytes(item, names) + [] == ItemBytes(item, names);
    RunToken(InitialState, UUIDToken(item.uuid), Encode(BeginObject) + (attributes + tail));
    var s1 := Step(InitialState, UUIDToken(item.uuid));
    RunToken(s1, BeginObject, attributes + tail);
    ReadAttributes(s1, item, names, tail);
    AllAttributesRead(s1, item, names);
    var after := WithAttributes(s1, item, names);
    RunToken(after, EndObject, []);
    NothingToRead(after);
  }

  lemma NothingToRead(s: ReaderState)
    ensures RunBytes(s, []) == s && ReadAll([]).1 == Finished
  {
  }
}
