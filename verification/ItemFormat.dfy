/** Items, the types of their attributes, and the tokens that an item is written as. */
module ItemFormat {
  import opened Wrappers
  import opened Bytes
  import opened BinaryWriter
  import opened Utf8
  import opened Numbers
  import opened Paths

  // ----- Types -----

  const INT64_TYPE: nat := 1
  const DOUBLE_TYPE: nat := 2
  const STRING_TYPE: nat := 3
  const BLOB_TYPE: nat := 4
  const REFERENCE_TYPE: nat := 5
  const COMPOSITE_REFERENCE_TYPE: nat := 6
  const ATTACHMENT_TYPE: nat := 7
  const SET_TYPE: nat := 0x10
  const ARRAY_TYPE: nat := 0x20

  /** The low and the next four bits of a type. */
  function PrimitivePart(t: nat): nat {
    t % 16
  }

  function MultivaluedPart(t: nat): nat {
    t / 16 % 16 * 16
  }

  predicate IsMultivalued(t: nat) {
    MultivaluedPart(t) != 0
  }

  predicate IsOrdered(t: nat) {
    MultivaluedPart(t) == ARRAY_TYPE
  }

  predicate IsValidType(t: nat) {
    && INT64_TYPE <= PrimitivePart(t) <= ATTACHMENT_TYPE
    && MultivaluedPart(t) in {0, SET_TYPE, ARRAY_TYPE}
    && t < 256
  }

  // ----- Values -----

  datatype Value =
    | NullValue
    | IntValue(number: int)
    | DoubleValue(bytes: ByteSeq)
    | StringValue(bytes: ByteSeq)
    | BlobValue(bytes: ByteSeq)
    | UUIDValue(bytes: ByteSeq)
    | PathValue(path: Path)
    | AttachmentValue(bytes: ByteSeq)

  datatype AttributeValue = Single(value: Value) | Array(elements: seq<Value>) | Set(members: set<Value>)

  /** What the object of a value can hold. */
  predicate IsObject(v: Value) {
    match v
    case IntValue(number) => IsInt64(number)
    case DoubleValue(bytes) => |bytes| == 8
    case StringValue(bytes) => IsUtf8(bytes)
    case UUIDValue(bytes) => |bytes| == 16
    case PathValue(path) => path.WellFormed()
    case _ => true
  }

  /** The validation of a primitive: numbers of both kinds pass for both types of numbers, paths for
      both types of references, and null for all. */
  predicate HasPrimitiveType(v: Value, t: nat) {
    match v
    case NullValue => true
    case IntValue(_) => PrimitivePart(t) in {INT64_TYPE, DOUBLE_TYPE}
    case DoubleValue(_) => PrimitivePart(t) in {INT64_TYPE, DOUBLE_TYPE}
    case StringValue(_) => PrimitivePart(t) == STRING_TYPE
    case BlobValue(_) => PrimitivePart(t) == BLOB_TYPE
    case UUIDValue(_) => PrimitivePart(t) in {REFERENCE_TYPE, COMPOSITE_REFERENCE_TYPE}
    case PathValue(_) => PrimitivePart(t) in {REFERENCE_TYPE, COMPOSITE_REFERENCE_TYPE}
    case AttachmentValue(_) => PrimitivePart(t) == ATTACHMENT_TYPE
  }

  /** C leaves the cast to an integer open for doubles that are out of its range. */
  predicate IsCastDefined(v: Value, t: nat) {
    v.DoubleValue? && PrimitivePart(t) == INT64_TYPE ==>
      DoubleOf(v.bytes).IsFinite() && IsInt64(DoubleOf(v.bytes).Truncated())
  }

  predicate IsPrimitive(v: Value, t: nat) {
    IsObject(v) && HasPrimitiveType(v, t) && IsCastDefined(v, t)
  }

  /** The validation of an attribute. */
  predicate HasType(v: AttributeValue, t: nat) {
    && IsValidType(t)
    && match v
       case Single(value) => !IsMultivalued(t) && IsPrimitive(value, t)
       case Array(elements) => IsMultivalued(t) && IsOrdered(t) && forall e :: e in elements ==> IsPrimitive(e, t)
       case Set(members) => IsMultivalued(t) && !IsOrdered(t) && forall e :: e in members ==> IsPrimitive(e, t)
  }

  // ----- Tokens of values -----

  predicate IsPathForUUID(v: Value, t: nat) {
    v.PathValue? && PrimitivePart(t) == COMPOSITE_REFERENCE_TYPE
  }

  predicate IsTooLong(v: Value) {
    (v.StringValue? || v.BlobValue? || v.AttachmentValue?) && UINT32_MAX < |v.bytes|
  }

  /** What is written without an exception: a composite reference takes a path for a UUID. */
  predicate IsWritten(v: Value, t: nat) {
    IsPrimitive(v, t) && !IsPathForUUID(v, t) && !IsTooLong(v)
  }

  /** The answers of a number object. */
  function AsInteger(v: Value): int
    requires v.IntValue? || v.DoubleValue?
  {
    if v.IntValue? then v.number else DoubleOf(v.bytes).Truncated()
  }

  function AsDouble(v: Value): ByteSeq
    requires v.IntValue? || v.DoubleValue?
  {
    if v.DoubleValue? then v.bytes else DoubleBytes(NearestDouble(v.number))
  }

  /** How a primitive of the type is written. */
  function ValueToken(v: Value, t: nat): (r: Token)
    requires IsWritten(v, t)
    ensures Storable(r)
  {
    if v == NullValue then Null
    else if PrimitivePart(t) == INT64_TYPE then IntegerToken(AsInteger(v))
    else if PrimitivePart(t) == DOUBLE_TYPE then DoubleToken(AsDouble(v))
    else if PrimitivePart(t) == STRING_TYPE then StringToken(v.bytes)
    else if PrimitivePart(t) == BLOB_TYPE then BytesToken(v.bytes)
    else if PrimitivePart(t) == COMPOSITE_REFERENCE_TYPE then UUIDToken(v.bytes)
    else if PrimitivePart(t) == REFERENCE_TYPE then
      if v.PathValue? then
        PathRoundTrip(v.path);
        StringToken(PathText(v.path))
      else UUIDToken(v.bytes)
    else BytesToken(v.bytes)
  }

  /** What the reader makes of a token in the place of a value: an object, none for a string that is
      not UTF-8, an error, or an exception. */
  datatype Taken = TakenAs(value: Value) | TakenAsNil | Misplaced | Refused

  function TokenValue(token: Token, t: nat): Taken {
    match token
    case IntegerToken(value) => TakenAs(IntValue(value))
    case DoubleToken(bytes) => TakenAs(DoubleValue(bytes))
    case StringToken(bytes) =>
      if PrimitivePart(t) == REFERENCE_TYPE then
        if IsUtf8(bytes) && TextPath(bytes).Some? then TakenAs(PathValue(TextPath(bytes).value)) else Refused
      else if PrimitivePart(t) == STRING_TYPE then
        if IsUtf8(bytes) then TakenAs(StringValue(bytes)) else TakenAsNil
      else Misplaced
    case UUIDToken(bytes) => TakenAs(UUIDValue(bytes))
    case BytesToken(bytes) =>
      if PrimitivePart(t) == ATTACHMENT_TYPE then TakenAs(AttachmentValue(bytes)) else TakenAs(BlobValue(bytes))
    case Null => TakenAs(NullValue)
    case _ => Misplaced
  }

  predicate IsBroken(v: Value) {
    v.PathValue? && v.path.BrokenPath?
  }

  /** Numbers are read as the kind of number that the type is for. */
  predicate IsOfKind(v: Value, t: nat) {
    !(v.DoubleValue? && PrimitivePart(t) == INT64_TYPE) && !(v.IntValue? && PrimitivePart(t) == DOUBLE_TYPE)
  }

  function AsRead(v: Value, t: nat): Value {
    if IsOfKind(v, t) then v
    else if v.DoubleValue? then IntValue(AsInteger(v))
    else DoubleValue(AsDouble(v))
  }

  /** Within a type, the token tells the value up to the kind of a number, except that a broken path
      is refused. */
  lemma TokenTellsValue(v: Value, t: nat)
    requires IsWritten(v, t)
    ensures TokenValue(ValueToken(v, t), t) == if IsBroken(v) then Refused else TakenAs(AsRead(v, t))
  {
    hide TextPath;
    hide PathText;
    hide IsUtf8;
    hide DoubleOf;
    hide DoubleBytes;
    if v.PathValue? {
      PathRoundTrip(v.path);
    }
  }

  // ----- Numbers that survive -----

  /** The equality of number objects: their kinds do not matter. */
  predicate EqualNumbers(v: Value, w: Value)
    requires v.IntValue? || v.DoubleValue?
    requires w.IntValue? || w.DoubleValue?
  {
    match (v, w)
    case (IntValue(m), IntValue(n)) => m == n
    case (IntValue(n), DoubleValue(bytes)) => DoubleOf(bytes).Equals(n)
    case (DoubleValue(bytes), IntValue(n)) => DoubleOf(bytes).Equals(n)
    case (DoubleValue(bytes), DoubleValue(bytes')) =>
      bytes == bytes' || (DoubleOf(bytes).IsZero() && DoubleOf(bytes').IsZero())
  }

  /** What is read for a number equals it, if and only if it is whole or the type is for doubles, and
      it fits the digits of a double or the type is for integers. */
  lemma NumberSurvives(v: Value, t: nat)
    requires IsPrimitive(v, t) && (v.IntValue? || v.DoubleValue?)
    ensures AsRead(v, t).IntValue? || AsRead(v, t).DoubleValue?
    ensures EqualNumbers(AsRead(v, t), v) <==>
            match v
            case IntValue(n) => PrimitivePart(t) == INT64_TYPE || FitsDouble(n)
            case DoubleValue(bytes) => PrimitivePart(t) == DOUBLE_TYPE || DoubleOf(bytes).IsWhole()
  {
    hide DoubleOf;
    hide DoubleBytes;
    hide NearestDouble;
    hide FitsDouble;
    if v.IntValue? {
      NearestIsNear(v.number);
      DoubleRoundTrip(NearestDouble(v.number));
    }
  }

  // ----- The order of the members of a set -----

  /** The order of `memcmp` on byte sequences of the same length. */
  predicate LexLess(a: ByteSeq, b: ByteSeq) {
    if a == [] || b == [] then a == [] && b != []
    else a[0] < b[0] || (a[0] == b[0] && LexLess(a[1..], b[1..]))
  }

  /** Shorter tokens come first, then the bytes decide. */
  predicate TokenLess(a: ByteSeq, b: ByteSeq) {
    |a| < |b| || (|a| == |b| && LexLess(a, b))
  }

  lemma {:induction false} LexTotal(a: ByteSeq, b: ByteSeq)
    ensures a == b || LexLess(a, b) || LexLess(b, a)
    ensures !(LexLess(a, b) && LexLess(b, a)) && !LexLess(a, a)
    decreases |a|
  {
    if a != [] && b != [] && a[0] == b[0] {
      LexTotal(a[1..], b[1..]);
      assert a == [a[0]] + a[1..] && b == [b[0]] + b[1..];
    }
    if a != [] {
      LexTotal(a[1..], a[1..]);
    }
  }

  lemma {:induction false} LexTransitive(a: ByteSeq, b: ByteSeq, c: ByteSeq)
    requires LexLess(a, b) && LexLess(b, c)
    ensures LexLess(a, c)
    decreases |a|
  {
    if a != [] && a[0] == b[0] == c[0] {
      LexTransitive(a[1..], b[1..], c[1..]);
    }
  }

  lemma TokenLessTransitive(a: ByteSeq, b: ByteSeq, c: ByteSeq)
    requires TokenLess(a, b) && TokenLess(b, c)
    ensures TokenLess(a, c)
  {
    if |a| == |b| == |c| {
      LexTransitive(a, b, c);
    }
  }

  predicate TokenNotAfter(a: ByteSeq, b: ByteSeq) {
    a == b || TokenLess(a, b)
  }

  predicate InTokenOrder(tokens: seq<ByteSeq>) {
    forall i :: 0 < i < |tokens| ==> TokenNotAfter(tokens[i - 1], tokens[i])
  }

  lemma TokenOrderTail(tokens: seq<ByteSeq>)
    requires InTokenOrder(tokens) && tokens != []
    ensures InTokenOrder(tokens[1..])
  {
    forall i | 0 < i < |tokens| - 1 ensures TokenNotAfter(tokens[1..][i - 1], tokens[1..][i]) {
      assert TokenNotAfter(tokens[i], tokens[i + 1]);
    }
  }

  lemma {:induction false} FirstIsLeast(tokens: seq<ByteSeq>, x: ByteSeq)
    requires InTokenOrder(tokens) && x in tokens
    ensures TokenNotAfter(tokens[0], x)
  {
    if x != tokens[0] {
      TokenOrderTail(tokens);
      FirstIsLeast(tokens[1..], x);
      assert TokenNotAfter(tokens[0], tokens[1]);
      if tokens[0] != tokens[1] && tokens[1] != x {
        TokenLessTransitive(tokens[0], tokens[1], x);
      }
    }
  }

  lemma SameFirst(tokens: seq<ByteSeq>, others: seq<ByteSeq>)
    requires InTokenOrder(tokens) && InTokenOrder(others) && tokens != [] && others != []
    requires others[0] in tokens && tokens[0] in others
    ensures tokens[0] == others[0]
  {
    FirstIsLeast(tokens, others[0]);
    FirstIsLeast(others, tokens[0]);
    LexTotal(tokens[0], others[0]);
  }

  lemma TailTokens(tokens: seq<ByteSeq>)
    requires tokens != []
    ensures multiset(tokens[1..]) == multiset(tokens) - multiset{tokens[0]}
  {
    assert tokens == [tokens[0]] + tokens[1..];
  }

  /** There is only one sorted sequence of the same tokens. */
  lemma {:induction false} SortedIsUnique(tokens: seq<ByteSeq>, others: seq<ByteSeq>)
    requires InTokenOrder(tokens) && InTokenOrder(others)
    requires multiset(tokens) == multiset(others)
    ensures tokens == others
  {
    assert |tokens| == |multiset(tokens)| == |others|;
    if tokens != [] {
      assert tokens[0] in multiset(others) && others[0] in multiset(tokens);
      SameFirst(tokens, others);
      TokenOrderTail(tokens);
      TokenOrderTail(others);
      hide InTokenOrder;
      TailTokens(tokens);
      TailTokens(others);
      SortedIsUnique(tokens[1..], others[1..]);
      assert tokens == [tokens[0]] + tokens[1..] && others == [others[0]] + others[1..];
    }
  }

  lemma TokenOrderCons(token: ByteSeq, tokens: seq<ByteSeq>)
    requires InTokenOrder(tokens) && (tokens != [] ==> TokenNotAfter(token, tokens[0]))
    ensures InTokenOrder([token] + tokens)
  {
    var all := [token] + tokens;
    forall i | 0 < i < |all| ensures TokenNotAfter(all[i - 1], all[i]) {
      assert i > 1 ==> TokenNotAfter(tokens[i - 2], tokens[i - 1]);
    }
  }

  /** Insertion into a sorted sequence. */
  function InsertToken(tokens: seq<ByteSeq>, token: ByteSeq): (r: seq<ByteSeq>)
    requires InTokenOrder(tokens)
    ensures InTokenOrder(r) && multiset(r) == multiset(tokens) + multiset{token}
    ensures r != [] && (r[0] == token || (tokens != [] && r[0] == tokens[0]))
  {
    if tokens == [] then [token]
    else if TokenNotAfter(token, tokens[0]) then
      TokenOrderCons(token, tokens);
      [token] + tokens
    else
      TokenOrderTail(tokens);
      LexTotal(token, tokens[0]);
      assert tokens == [tokens[0]] + tokens[1..];
      var rest := InsertToken(tokens[1..], token);
      assert |tokens| > 1 ==> TokenNotAfter(tokens[0], tokens[1]);
      TokenOrderCons(tokens[0], rest);
      [tokens[0]] + rest
  }

  /** Tokens in their order. */
  ghost function InOrder(tokens: multiset<ByteSeq>): (r: seq<ByteSeq>)
    ensures InTokenOrder(r) && multiset(r) == tokens
    decreases |tokens|
  {
    if tokens == multiset{} then []
    else
      var token :| token in tokens;
      InsertToken(InOrder(tokens - multiset{token}), token)
  }

  /** Sorting a sequence of tokens, as the library's sort would leave it. */
  function SortTokens(tokens: seq<ByteSeq>): (r: seq<ByteSeq>)
    ensures InTokenOrder(r) && multiset(r) == multiset(tokens)
  {
    if tokens == [] then []
    else
      assert tokens == [tokens[0]] + tokens[1..];
      InsertToken(SortTokens(tokens[1..]), tokens[0])
  }

  // ----- Items -----

  /** An item: its identity, and types and values for the names of its attributes. */
  datatype Item = Item(uuid: ByteSeq, types: map<ByteSeq, int>, values: map<ByteSeq, AttributeValue>)

  /** What the initializer of an item checks: a value needs a type, and is validated. A type needs no
      value, and is not validated then. */
  predicate IsItem(item: Item) {
    && |item.uuid| == 16
    && item.values.Keys <= item.types.Keys
    && (forall name :: name in item.types ==> IsUtf8(name) && 0 <= item.types[name] < 0x1_0000_0000)
    && (forall name :: name in item.values ==> HasType(item.values[name], item.types[name]))
  }

  /** What the answers of a missing object are written as. */
  function MissingValue(t: nat): Value {
    if PrimitivePart(t) == INT64_TYPE then IntValue(0)
    else if PrimitivePart(t) == DOUBLE_TYPE then DoubleValue(DoubleBytes(Double(false, 0, 0)))
    else if PrimitivePart(t) == BLOB_TYPE then BlobValue([])
    else if PrimitivePart(t) == ATTACHMENT_TYPE then AttachmentValue([])
    else NullValue
  }

  lemma MissingIsWritten(t: nat)
    ensures INT64_TYPE <= PrimitivePart(t) <= ATTACHMENT_TYPE ==> IsWritten(MissingValue(t), t)
    ensures !IsBroken(MissingValue(t)) && AsRead(MissingValue(t), t) == MissingValue(t)
  {
  }

  /** A missing array or set fails an assertion, and a missing value of an unknown type raises. */
  predicate CanBeMissing(t: nat) {
    !IsMultivalued(t) && INT64_TYPE <= PrimitivePart(t) <= ATTACHMENT_TYPE
  }

  function AttributeOf(item: Item, name: ByteSeq): AttributeValue
    requires IsItem(item) && name in item.types
  {
    if name in item.values then item.values[name] else Single(MissingValue(item.types[name]))
  }

  predicate StorableValue(v: AttributeValue, t: nat) {
    match v
    case Single(value) => !IsMultivalued(t) && IsWritten(value, t)
    case Array(elements) => IsMultivalued(t) && IsOrdered(t) && AllElementsStorable(elements, t)
    case Set(members) => IsMultivalued(t) && !IsOrdered(t) && AllStorable(members, t)
  }

  /** An attribute that is written without an exception. */
  predicate StorableAttribute(item: Item, name: ByteSeq)
    requires IsItem(item) && name in item.types
  {
    && |name| <= UINT32_MAX
    && (name in item.values || CanBeMissing(item.types[name]))
    && StorableValue(AttributeOf(item, name), item.types[name])
  }

  predicate StorableItem(item: Item) {
    IsItem(item) && forall name :: name in item.types ==> StorableAttribute(item, name)
  }

  function ValueBytes(v: Value, t: nat): ByteSeq
    requires IsWritten(v, t)
  {
    Encode(ValueToken(v, t))
  }

  function Concat(parts: seq<ByteSeq>): ByteSeq {
    if parts == [] then [] else parts[0] + Concat(parts[1..])
  }

  function ElementBytes(elements: seq<Value>, t: nat): ByteSeq
    requires AllElementsStorable(elements, t)
  {
    if elements == [] then [] else ValueBytes(elements[0], t) + ElementBytes(elements[1..], t)
  }

  predicate AllElementsStorable(elements: seq<Value>, t: nat) {
    forall e :: e in elements ==> IsWritten(e, t)
  }

  predicate AllStorable(members: set<Value>, t: nat) {
    forall e :: e in members ==> IsWritten(e, t)
  }

  ghost function SomeMember(members: set<Value>): (v: Value)
    requires members != {}
    ensures v in members
  {
    var v :| v in members;
    v
  }

  /** The tokens of the members of a set. Different broken paths have the same token. */
  ghost function EncodingsOf(members: set<Value>, t: nat): (r: multiset<ByteSeq>)
    requires AllStorable(members, t)
    ensures |r| == |members|
  {
    if members == {} then multiset{}
    else
      var v := SomeMember(members);
      multiset{ValueBytes(v, t)} + EncodingsOf(members - {v}, t)
  }

  lemma {:induction false} EncodingsWith(members: set<Value>, v: Value, t: nat)
    requires AllStorable(members, t) && v in members
    ensures EncodingsOf(members, t) == multiset{ValueBytes(v, t)} + EncodingsOf(members - {v}, t)
  {
    hide ValueBytes;
    hide IsWritten;
    hide EncodingsOf;
    EncodingsStep(members, t);
    var w := SomeMember(members);
    if w != v {
      assert members - {w} - {v} == members - {v} - {w};
      EncodingsWith(members - {w}, v, t);
      EncodingsWith(members - {v}, w, t);
    }
  }

  lemma EncodingsStep(members: set<Value>, t: nat)
    requires AllStorable(members, t) && members != {}
    ensures var v := SomeMember(members);
            EncodingsOf(members, t) == multiset{ValueBytes(v, t)} + EncodingsOf(members - {v}, t)
  {
  }

  lemma {:induction false} EncodingsAre(members: set<Value>, t: nat)
    requires AllStorable(members, t)
    ensures forall x :: x in EncodingsOf(members, t) <==> exists e :: e in members && ValueBytes(e, t) == x
  {
    hide ValueBytes;
    hide IsWritten;
    if members != {} {
      var v := SomeMember(members);
      EncodingsAre(members - {v}, t);
      assert forall e :: e in members <==> e == v || e in members - {v};
    }
  }

  /** The tokens of the members of a set, in an order that depends on the set alone. Doubles are
      their bytes here: positive and negative zero are different members. */
  ghost function MemberBytes(members: set<Value>, t: nat): ByteSeq
    requires AllStorable(members, t)
  {
    Concat(InOrder(EncodingsOf(members, t)))
  }

  /** The two have the same bytes up to some index, and a smaller one there. */
  predicate DiffersFirst(a: ByteSeq, b: ByteSeq, k: nat) {
    k < |a| && k < |b| && a[k] < b[k] && forall i :: 0 <= i < k ==> a[i] == b[i]
  }

  /** Shorter sequences come first, and of the same length those with the smaller byte where they
      first differ. */
  ghost predicate NotAfterInBytes(a: ByteSeq, b: ByteSeq) {
    |a| <= |b| && (|a| == |b| ==> a == b || exists k: nat :: DiffersFirst(a, b, k))
  }

  ghost predicate InByteOrder(tokens: seq<ByteSeq>) {
    forall i :: 0 < i < |tokens| ==> NotAfterInBytes(tokens[i - 1], tokens[i])
  }

  lemma {:induction false} FirstDifference(a: ByteSeq, b: ByteSeq) returns (k: nat)
    requires |a| == |b| && LexLess(a, b)
    ensures DiffersFirst(a, b, k)
  {
    if a[0] < b[0] {
      return 0;
    }
    k := FirstDifference(a[1..], b[1..]);
    k := k + 1;
    forall i | 0 <= i < k ensures a[i] == b[i] {
      assert i > 0 ==> a[1..][i - 1] == b[1..][i - 1];
    }
  }

  lemma NotAfterIsByBytes(a: ByteSeq, b: ByteSeq)
    requires TokenNotAfter(a, b)
    ensures NotAfterInBytes(a, b)
  {
    if |a| == |b| && a != b {
      var k := FirstDifference(a, b);
    }
  }

  lemma SortedIsInByteOrder(tokens: seq<ByteSeq>)
    requires InTokenOrder(tokens)
    ensures InByteOrder(tokens)
  {
    forall i | 0 < i < |tokens| ensures NotAfterInBytes(tokens[i - 1], tokens[i]) {
      NotAfterIsByBytes(tokens[i - 1], tokens[i]);
    }
  }

  /** The bytes of a set are those of all its members' tokens, in the order of their bytes. */
  lemma MembersAreInByteOrder(members: set<Value>, t: nat) returns (tokens: seq<ByteSeq>)
    requires AllStorable(members, t)
    ensures MemberBytes(members, t) == Concat(tokens)
    ensures multiset(tokens) == EncodingsOf(members, t)
    ensures InByteOrder(tokens)
  {
    tokens := InOrder(EncodingsOf(members, t));
    SortedIsInByteOrder(tokens);
  }

  ghost function AttributeBytes(v: AttributeValue, t: nat): ByteSeq
    requires StorableValue(v, t)
  {
    match v
    case Single(value) => ValueBytes(value, t)
    case Array(elements) => Encode(BeginArray) + ElementBytes(elements, t) + Encode(EndArray)
    case Set(members) => Encode(BeginArray) + MemberBytes(members, t) + Encode(EndArray)
  }

  function TypeBytes(item: Item, name: ByteSeq): ByteSeq
    requires IsItem(item) && name in item.types
  {
    Encode(IntegerToken(item.types[name]))
  }

  /** An attribute: its name, its type and its value. */
  ghost function AttributeEntry(item: Item, name: ByteSeq): ByteSeq
    requires IsItem(item) && name in item.types && StorableAttribute(item, name)
  {
    Encode(StringToken(name)) + TypeBytes(item, name) + AttributeBytes(AttributeOf(item, name), item.types[name])
  }

  predicate AreStorable(item: Item, names: seq<ByteSeq>)
    requires IsItem(item)
  {
    forall name :: name in names ==> name in item.types && StorableAttribute(item, name)
  }

  /** The attributes of an item, in the order of the given names. */
  ghost function AttributesBytes(item: Item, names: seq<ByteSeq>): ByteSeq
    requires IsItem(item) && AreStorable(item, names)
  {
    if names == [] then [] else AttributeEntry(item, names[0]) + AttributesBytes(item, names[1..])
  }

  ghost function ItemBytes(item: Item, names: seq<ByteSeq>): ByteSeq
    requires IsItem(item) && AreStorable(item, names)
  {
    Encode(UUIDToken(item.uuid)) + Encode(BeginObject) + AttributesBytes(item, names) + Encode(EndObject)
  }
}
