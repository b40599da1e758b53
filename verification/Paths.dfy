/** References to persistent roots and branches, and the strings that stand for them. */
module Paths {
  import opened Wrappers
  import opened Bytes
  import opened Utf8

  // ----- UUIDs as text -----

  const HYPHEN: Byte := '-' as int
  const COLON: Byte := ':' as int

  function HexDigit(n: nat): Byte
    requires n < 16
  {
    if n < 10 then '0' as int + n else 'a' as int + n - 10
  }

  function HexValue(c: Byte): (r: Option<nat>)
    ensures r.Some? ==> r.value < 16
  {
    if '0' as int <= c <= '9' as int then Some(c - '0' as int)
    else if 'a' as int <= c <= 'f' as int then Some(c - 'a' as int + 10)
    else if 'A' as int <= c <= 'F' as int then Some(c - 'A' as int + 10)
    else None
  }

  function HexText(bytes: ByteSeq): (r: ByteSeq)
    ensures |r| == 2 * |bytes|
  {
    if bytes == [] then [] else [HexDigit(bytes[0] / 16), HexDigit(bytes[0] % 16)] + HexText(bytes[1..])
  }

  function HexBytes(text: ByteSeq): Option<ByteSeq> {
    if text == [] then Some([])
    else if |text| == 1 then None
    else
      match (HexValue(text[0]), HexValue(text[1]), HexBytes(text[2..]))
      case (Some(high), Some(low), Some(rest)) => Some([16 * high + low] + rest)
      case _ => None
  }

  /** The form of section 3 of RFC 4122. */
  function UUIDText(uuid: ByteSeq): ByteSeq
    requires |uuid| == 16
  {
    HexText(uuid[..4]) + [HYPHEN] + HexText(uuid[4..6]) + [HYPHEN] + HexText(uuid[6..8]) + [HYPHEN]
    + HexText(uuid[8..10]) + [HYPHEN] + HexText(uuid[10..])
  }

  /** Other text gives no UUID. */
  function TextUUID(text: ByteSeq): Option<ByteSeq> {
    if |text| == 36 && text[8] == text[13] == text[18] == text[23] == HYPHEN
    then HexBytes(text[..8] + text[9..13] + text[14..18] + text[19..23] + text[24..])
    else None
  }

  lemma {:induction false} HexRoundTrip(bytes: ByteSeq)
    ensures HexBytes(HexText(bytes)) == Some(bytes)
    ensures COLON !in HexText(bytes) && forall c :: c in HexText(bytes) ==> c < 0x80
  {
    if bytes != [] {
      HexRoundTrip(bytes[1..]);
      var high, low, rest := bytes[0] / 16, bytes[0] % 16, HexText(bytes[1..]);
      assert HexText(bytes) == [HexDigit(high), HexDigit(low)] + rest;
      assert ([HexDigit(high), HexDigit(low)] + rest)[2..] == rest;
      assert [16 * high + low] + bytes[1..] == bytes;
      assert HexValue(HexDigit(bytes[0] / 16)) == Some(bytes[0] / 16);
      assert HexValue(HexDigit(bytes[0] % 16)) == Some(bytes[0] % 16);
    }
  }

  lemma {:induction false} HexOfParts(a: ByteSeq, b: ByteSeq)
    ensures HexText(a + b) == HexText(a) + HexText(b)
  {
    if a == [] {
      assert a + b == b;
    } else {
      assert (a + b)[1..] == a[1..] + b;
      HexOfParts(a[1..], b);
    }
  }

  lemma HexOfFiveParts(a: ByteSeq, b: ByteSeq, c: ByteSeq, d: ByteSeq, e: ByteSeq)
    ensures HexText(a + b + c + d + e) == HexText(a) + HexText(b) + HexText(c) + HexText(d) + HexText(e)
  {
    HexOfParts(a, b);
    HexOfParts(a + b, c);
    HexOfParts(a + b + c, d);
    HexOfParts(a + b + c + d, e);
  }

  lemma UUIDRoundTrip(uuid: ByteSeq)
    requires |uuid| == 16
    ensures TextUUID(UUIDText(uuid)) == Some(uuid)
    ensures COLON !in UUIDText(uuid) && forall c :: c in UUIDText(uuid) ==> c < 0x80
  {
    UUIDTextIsPlain(uuid);
    var a, b, c, d, e := uuid[..4], uuid[4..6], uuid[6..8], uuid[8..10], uuid[10..];
    HexRoundTrip(uuid);
    HexOfFiveParts(a, b, c, d, e);
    assert uuid == a + b + c + d + e;
    TextParts(HexText(a), HexText(b), HexText(c), HexText(d), HexText(e));
    hide HexText;
    hide HexBytes;
  }

  lemma UUIDTextIsPlain(uuid: ByteSeq)
    requires |uuid| == 16
    ensures COLON !in UUIDText(uuid) && forall c :: c in UUIDText(uuid) ==> c < 0x80
  {
    HexRoundTrip(uuid[..4]);
    HexRoundTrip(uuid[4..6]);
    HexRoundTrip(uuid[6..8]);
    HexRoundTrip(uuid[8..10]);
    HexRoundTrip(uuid[10..]);
    hide HexText;
    hide HexBytes;
  }

  lemma TextParts(a: ByteSeq, b: ByteSeq, c: ByteSeq, d: ByteSeq, e: ByteSeq)
    requires |a| == 8 && |b| == |c| == |d| == 4 && |e| == 12
    ensures var text := a + [HYPHEN] + b + [HYPHEN] + c + [HYPHEN] + d + [HYPHEN] + e;
            && |text| == 36 && text[8] == text[13] == text[18] == text[23] == HYPHEN
            && text[..8] + text[9..13] + text[14..18] + text[19..23] + text[24..] == a + b + c + d + e
  {
    var text := a + [HYPHEN] + b + [HYPHEN] + c + [HYPHEN] + d + [HYPHEN] + e;
    assert text[..8] == a && text[9..13] == b && text[14..18] == c && text[19..23] == d && text[24..] == e;
  }

  // ----- Which text is that of a UUID -----

  const DIGITS := "0123456789abcdef"

  function LowerCase(c: Byte): Byte {
    if 'A' as int <= c <= 'Z' as int then c + 0x20 else c
  }

  function LowerText(text: ByteSeq): (r: ByteSeq)
    ensures |r| == |text|
  {
    seq(|text|, i requires 0 <= i < |text| => LowerCase(text[i]))
  }

  lemma HexDigitIs(n: nat)
    requires n < 16
    ensures HexDigit(n) == DIGITS[n] as int
  {
  }

  lemma HexValueIs(c: Byte, n: nat)
    requires n < 16
    ensures HexValue(c) == Some(n) <==> LowerCase(c) == HexDigit(n)
  {
  }

  /** The digits of each byte, the high one first. */
  lemma {:induction false} HexTextAt(bytes: ByteSeq, i: nat)
    requires i < |bytes|
    ensures HexText(bytes)[2 * i] == DIGITS[bytes[i] / 16] as int
    ensures HexText(bytes)[2 * i + 1] == DIGITS[bytes[i] % 16] as int
  {
    var rest := HexText(bytes[1..]);
    assert HexText(bytes) == [HexDigit(bytes[0] / 16), HexDigit(bytes[0] % 16)] + rest;
    if i == 0 {
      HexDigitIs(bytes[0] / 16);
      HexDigitIs(bytes[0] % 16);
    } else {
      HexTextAt(bytes[1..], i - 1);
    }
  }

  /** How many hyphens stand before the digits of a byte. */
  function HyphensBefore(i: nat): nat {
    if i < 4 then 0 else if i < 6 then 1 else if i < 8 then 2 else if i < 10 then 3 else 4
  }

  /** The text of a UUID: 32 lower case digits in groups of 8, 4, 4, 4 and 12. */
  lemma UUIDTextLayout(uuid: ByteSeq)
    requires |uuid| == 16
    ensures var text := UUIDText(uuid);
            && |text| == 36
            && text[8] == text[13] == text[18] == text[23] == 0x2d
            && forall i :: 0 <= i < 16 ==> AreDigitsOf(text, 2 * i + HyphensBefore(i), uuid[i])
  {
    hide *;
    UUIDGroups(uuid);
    var text := UUIDText(uuid);
    DigitsAt(text, uuid[..4], 0);
    DigitsAt(text, uuid[4..6], 9);
    DigitsAt(text, uuid[6..8], 14);
    DigitsAt(text, uuid[8..10], 19);
    DigitsAt(text, uuid[10..], 24);
    AllDigits(text, uuid);
  }

  lemma TextSlices(a: ByteSeq, b: ByteSeq, c: ByteSeq, d: ByteSeq, e: ByteSeq)
    requires |a| == 8 && |b| == |c| == |d| == 4 && |e| == 12
    ensures var text := a + [HYPHEN] + b + [HYPHEN] + c + [HYPHEN] + d + [HYPHEN] + e;
            && |text| == 36 && text[8] == text[13] == text[18] == text[23] == 0x2d
            && text[0..8] == a && text[9..13] == b && text[14..18] == c && text[19..23] == d && text[24..36] == e
  {
  }

  lemma UUIDGroups(uuid: ByteSeq)
    requires |uuid| == 16
    ensures var text := UUIDText(uuid);
            && |text| == 36 && text[8] == text[13] == text[18] == text[23] == 0x2d
            && text[0..8] == HexText(uuid[..4]) && text[9..13] == HexText(uuid[4..6])
            && text[14..18] == HexText(uuid[6..8]) && text[19..23] == HexText(uuid[8..10])
            && text[24..36] == HexText(uuid[10..])
  {
    hide HexText;
    TextSlices(HexText(uuid[..4]), HexText(uuid[4..6]), HexText(uuid[6..8]), HexText(uuid[8..10]), HexText(uuid[10..]));
  }

  lemma AllDigits(text: ByteSeq, uuid: ByteSeq)
    requires |uuid| == 16
    requires forall i :: 0 <= i < 4 ==> AreDigitsOf(text, 0 + 2 * i, uuid[..4][i])
    requires forall i :: 0 <= i < 2 ==> AreDigitsOf(text, 9 + 2 * i, uuid[4..6][i])
    requires forall i :: 0 <= i < 2 ==> AreDigitsOf(text, 14 + 2 * i, uuid[6..8][i])
    requires forall i :: 0 <= i < 2 ==> AreDigitsOf(text, 19 + 2 * i, uuid[8..10][i])
    requires forall i :: 0 <= i < 6 ==> AreDigitsOf(text, 24 + 2 * i, uuid[10..][i])
    ensures forall i :: 0 <= i < 16 ==> AreDigitsOf(text, 2 * i + HyphensBefore(i), uuid[i])
  {
    hide AreDigitsOf;
    forall i | 0 <= i < 16 ensures AreDigitsOf(text, 2 * i + HyphensBefore(i), uuid[i]) {
      if i < 4 {
        assert AreDigitsOf(text, 0 + 2 * i, uuid[..4][i]);
      } else if i < 6 {
        assert AreDigitsOf(text, 9 + 2 * (i - 4), uuid[4..6][i - 4]);
      } else if i < 8 {
        assert AreDigitsOf(text, 14 + 2 * (i - 6), uuid[6..8][i - 6]);
      } else if i < 10 {
        assert AreDigitsOf(text, 19 + 2 * (i - 8), uuid[8..10][i - 8]);
      } else {
        assert AreDigitsOf(text, 24 + 2 * (i - 10), uuid[10..][i - 10]);
      }
    }
  }

  /** The two digits of a byte stand at an index of a text. */
  predicate AreDigitsOf(text: ByteSeq, at: nat, b: Byte) {
    at + 1 < |text| && text[at] == DIGITS[b / 16] as int && text[at + 1] == DIGITS[b % 16] as int
  }

  lemma DigitsAt(text: ByteSeq, bytes: ByteSeq, at: nat)
    requires at + 2 * |bytes| <= |text| && text[at..at + 2 * |bytes|] == HexText(bytes)
    ensures forall i :: 0 <= i < |bytes| ==> AreDigitsOf(text, at + 2 * i, bytes[i])
  {
    hide HexText;
    hide AreDigitsOf;
    var digits := HexText(bytes);
    assert |digits| == 2 * |bytes|;
    forall i | 0 <= i < |bytes| ensures AreDigitsOf(text, at + 2 * i, bytes[i]) {
      HexTextAt(bytes, i);
      DigitAt(text, digits, at, 2 * i, bytes[i]);
    }
  }

  lemma DigitAt(text: ByteSeq, part: ByteSeq, at: nat, k: nat, b: Byte)
    requires at + |part| <= |text| && text[at..at + |part|] == part && k + 1 < |part|
    requires part[k] == DIGITS[b / 16] as int && part[k + 1] == DIGITS[b % 16] as int
    ensures AreDigitsOf(text, at + k, b)
  {
    assert text[at..at + |part|][k] == text[at + k];
    assert text[at..at + |part|][k + 1] == text[at + k + 1];
  }

  lemma {:induction false} HexBytesIff(text: ByteSeq, bytes: ByteSeq)
    ensures HexBytes(text) == Some(bytes) <==> LowerText(text) == HexText(bytes)
  {
    if bytes == [] || |text| < 2 {
      if text == [] {
        assert LowerText(text) == [];
      }
    } else {
      var high, low, rest := bytes[0] / 16, bytes[0] % 16, bytes[1..];
      HexBytesIff(text[2..], rest);
      HexValueIs(text[0], high);
      HexValueIs(text[1], low);
      var lower := LowerText(text);
      assert lower[2..] == LowerText(text[2..]);
      assert lower == [lower[0], lower[1]] + lower[2..];
      assert HexText(bytes) == [HexDigit(high), HexDigit(low)] + HexText(rest);
      assert bytes == [bytes[0]] + rest;
      HexBytesUnfolds(text, bytes);
      if lower == HexText(bytes) {
        assert lower[0] == HexDigit(high) && lower[1] == HexDigit(low);
        assert lower[2..] == HexText(bytes)[2..] == HexText(rest);
      }
    }
  }

  lemma HexBytesUnfolds(text: ByteSeq, bytes: ByteSeq)
    requires |text| >= 2 && bytes != []
    ensures HexBytes(text) == Some(bytes)
       <==> && HexValue(text[0]) == Some(bytes[0] / 16) && HexValue(text[1]) == Some(bytes[0] % 16)
            && HexBytes(text[2..]) == Some(bytes[1..])
  {
    if HexBytes(text) == Some(bytes) {
      var high, low, rest := HexValue(text[0]).value, HexValue(text[1]).value, HexBytes(text[2..]).value;
      assert ([16 * high + low] + rest)[1..] == rest;
    }
    if HexBytes(text[2..]) == Some(bytes[1..]) {
      assert [bytes[0]] + bytes[1..] == bytes;
      assert 16 * (bytes[0] / 16) + bytes[0] % 16 == bytes[0];
    }
  }

  /** Text gives a UUID exactly if it is the UUID's text, but for the case of letters. */
  lemma TextUUIDIff(text: ByteSeq, uuid: ByteSeq)
    requires |uuid| == 16
    ensures TextUUID(text) == Some(uuid) <==> LowerText(text) == UUIDText(uuid)
  {
    var lower := LowerText(text);
    if |text| == 36 {
      var digits := text[..8] + text[9..13] + text[14..18] + text[19..23] + text[24..];
      HexBytesIff(digits, uuid);
      LowerParts(text);
      UUIDTextParts(uuid, lower);
    }
  }

  lemma LowerParts(text: ByteSeq)
    requires |text| == 36
    ensures var lower := LowerText(text);
            && LowerText(text[..8] + text[9..13] + text[14..18] + text[19..23] + text[24..])
               == lower[..8] + lower[9..13] + lower[14..18] + lower[19..23] + lower[24..]
            && forall i :: 0 <= i < 36 ==> (lower[i] == HYPHEN <==> text[i] == HYPHEN)
  {
  }

  lemma UUIDTextParts(uuid: ByteSeq, text: ByteSeq)
    requires |uuid| == 16 && |text| == 36
    ensures text == UUIDText(uuid)
       <==> && text[8] == text[13] == text[18] == text[23] == HYPHEN
            && text[..8] + text[9..13] + text[14..18] + text[19..23] + text[24..] == HexText(uuid)
  {
    assert uuid == uuid[..4] + uuid[4..6] + uuid[6..8] + uuid[8..10] + uuid[10..];
    HexOfFiveParts(uuid[..4], uuid[4..6], uuid[6..8], uuid[8..10], uuid[10..]);
    hide HexText;
    PartsIff(text, HexText(uuid[..4]), HexText(uuid[4..6]), HexText(uuid[6..8]), HexText(uuid[8..10]),
             HexText(uuid[10..]));
  }

  /** Text of five groups is known by its hyphens and digits. */
  lemma PartsIff(text: ByteSeq, a: ByteSeq, b: ByteSeq, c: ByteSeq, d: ByteSeq, e: ByteSeq)
    requires |text| == 36 && |a| == 8 && |b| == |c| == |d| == 4 && |e| == 12
    ensures text == a + [HYPHEN] + b + [HYPHEN] + c + [HYPHEN] + d + [HYPHEN] + e
       <==> && text[8] == text[13] == text[18] == text[23] == HYPHEN
            && text[..8] + text[9..13] + text[14..18] + text[19..23] + text[24..] == a + b + c + d + e
  {
    TextParts(a, b, c, d, e);
    var digits := text[..8] + text[9..13] + text[14..18] + text[19..23] + text[24..];
    if text[8] == text[13] == text[18] == text[23] == HYPHEN && digits == a + b + c + d + e {
      SameParts(text[..8], text[9..13], text[14..18], text[19..23], text[24..], a, b, c, d, e);
      WholeText(text);
    }
  }

  lemma WholeText(text: ByteSeq)
    requires |text| == 36
    ensures text == text[..8] + [text[8]] + text[9..13] + [text[13]] + text[14..18] + [text[18]] + text[19..23]
                    + [text[23]] + text[24..]
  {
  }

  lemma SameParts(a: ByteSeq, b: ByteSeq, c: ByteSeq, d: ByteSeq, e: ByteSeq,
                  a': ByteSeq, b': ByteSeq, c': ByteSeq, d': ByteSeq, e': ByteSeq)
    requires |a| == |a'| && |b| == |b'| && |c| == |c'| && |d| == |d'|
    requires a + b + c + d + e == a' + b' + c' + d' + e'
    ensures a == a' && b == b' && c == c' && d == d' && e == e'
  {
    assert a + b + c + d + e == a + (b + (c + (d + e))) && a' + b' + c' + d' + e' == a' + (b' + (c' + (d' + e')));
    SameFront(a, b + (c + (d + e)), a', b' + (c' + (d' + e')));
    SameFront(b, c + (d + e), b', c' + (d' + e'));
    SameFront(c, d + e, c', d' + e');
    SameFront(d, e, d', e');
  }

  lemma SameFront(a: ByteSeq, rest: ByteSeq, a': ByteSeq, rest': ByteSeq)
    requires |a| == |a'| && a + rest == a' + rest'
    ensures a == a' && rest == rest'
  {
    assert (a + rest)[..|a|] == a && (a' + rest')[..|a|] == a';
    assert (a + rest)[|a|..] == rest && (a' + rest')[|a|..] == rest';
  }

  // ----- Paths -----

  /** Broken paths stand for what no longer exists. They are objects of their own: no two are equal. */
  datatype Path = Path(root: ByteSeq, branch: Option<ByteSeq>) | BrokenPath(identity: int) {
    predicate WellFormed() {
      Path? ==> |root| == 16 && (branch.Some? ==> |branch.value| == 16)
    }
  }

  const BROKEN_PATH_TEXT: ByteSeq :=
    ['C' as int, 'O' as int, 'B' as int, 'r' as int, 'o' as int, 'k' as int,
     'e' as int, 'n' as int, 'P' as int, 'a' as int, 't' as int, 'h' as int]

  function PathText(path: Path): ByteSeq
    requires path.WellFormed()
  {
    match path
    case Path(root, None) => UUIDText(root)
    case Path(root, Some(branch)) => UUIDText(root) + [COLON] + UUIDText(branch)
    case BrokenPath(_) => BROKEN_PATH_TEXT
  }

  /** The components between the colons of a text. */
  function Components(text: ByteSeq): (r: seq<ByteSeq>)
    ensures |r| >= 1
  {
    if text == [] then [[]]
    else
      var rest := Components(text[1..]);
      if text[0] == COLON then [[]] + rest else [[text[0]] + rest[0]] + rest[1..]
  }

  /** The path of a text. What has no persistent root, or more than two components, raises. */
  function TextPath(text: ByteSeq): Option<Path> {
    var components := Components(text);
    if text == [] || |components| > 2 then None
    else
      match TextUUID(components[0])
      case Some(root) => Some(Path(root, if |components| == 2 then TextUUID(components[1]) else None))
      case None => None
  }

  lemma {:induction false} OneComponent(text: ByteSeq)
    requires COLON !in text
    ensures Components(text) == [text]
  {
    if text != [] {
      OneComponent(text[1..]);
      assert text == [text[0]] + text[1..];
    }
  }

  lemma {:induction false} FirstComponent(text: ByteSeq, rest: ByteSeq)
    requires COLON !in text
    ensures Components(text + [COLON] + rest) == [text] + Components(rest)
  {
    var whole := text + [COLON] + rest;
    if text == [] {
      assert whole[1..] == rest;
    } else {
      FirstComponent(text[1..], rest);
      assert whole[1..] == text[1..] + [COLON] + rest;
      assert text == [text[0]] + text[1..];
    }
  }

  /** The text of a path gives back the path, unless it is broken: then it is refused. */
  lemma PathRoundTrip(path: Path)
    requires path.WellFormed()
    ensures TextPath(PathText(path)) == if path.BrokenPath? then None else Some(path)
    ensures |PathText(path)| <= 73 && IsUtf8(PathText(path))
  {
    hide UUIDText;
    hide TextUUID;
    match path {
      case Path(root, None) =>
        UUIDRoundTrip(root);
        UUIDTextLength(root);
        OneComponent(UUIDText(root));
      case Path(root, Some(branch)) =>
        UUIDRoundTrip(root);
        UUIDRoundTrip(branch);
        UUIDTextLength(root);
        UUIDTextLength(branch);
        FirstComponent(UUIDText(root), UUIDText(branch));
        OneComponent(UUIDText(branch));
      case BrokenPath(_) =>
        OneComponent(BROKEN_PATH_TEXT);
        ShortTextIsNoUUID(BROKEN_PATH_TEXT);
    }
    assert forall c :: c in PathText(path) ==> c < 0x80;
    AsciiIsUtf8(PathText(path));
  }

  lemma UUIDTextLength(uuid: ByteSeq)
    requires |uuid| == 16
    ensures |UUIDText(uuid)| == 36
  {
  }

  lemma ShortTextIsNoUUID(text: ByteSeq)
    requires |text| != 36
    ensures TextUUID(text).None?
  {
  }

  // ----- Which text is that of a path -----

  /** The root comes first, then a colon and the branch if there is one; broken paths have a text of
      their own. */
  lemma PathTextLayout(path: Path)
    requires path.WellFormed()
    ensures match path
            case Path(root, None) => PathText(path) == UUIDText(root)
            case Path(root, Some(branch)) => PathText(path) == UUIDText(root) + [0x3a] + UUIDText(branch)
            case BrokenPath(_) =>
              && |PathText(path)| == |"COBrokenPath"|
              && forall i :: 0 <= i < |PathText(path)| ==> PathText(path)[i] == "COBrokenPath"[i] as int
  {
    hide UUIDText;
  }

  lemma {:induction false} SplitAtColon(text: ByteSeq) returns (first: ByteSeq, rest: ByteSeq)
    requires COLON in text
    ensures COLON !in first && text == first + [COLON] + rest
  {
    if text[0] == COLON {
      return [], text[1..];
    }
    first, rest := SplitAtColon(text[1..]);
    first := [text[0]] + first;
  }

  /** Text gives a path exactly if it is a UUID, or a UUID, one colon and something else; that is
      the branch if it is a UUID too, and otherwise there is none. */
  lemma TextPathIff(text: ByteSeq, root: ByteSeq, branch: Option<ByteSeq>)
    ensures TextPath(text) == Some(Path(root, branch)) <==>
            || (0x3a !in text && TextUUID(text) == Some(root) && branch == None)
            || exists first, second ::
                 && text == first + [0x3a] + second && 0x3a !in first && 0x3a !in second
                 && TextUUID(first) == Some(root) && branch == TextUUID(second)
  {
    hide TextUUID;
    if COLON !in text {
      OneComponent(text);
      EmptyIsNoUUID();
    } else {
      var first, rest := SplitAtColon(text);
      FirstComponent(first, rest);
      if COLON !in rest {
        OneComponent(rest);
      } else {
        var second, third := SplitAtColon(rest);
        FirstComponent(second, third);
      }
      forall first', second | text == first' + [COLON] + second && COLON !in first' && COLON !in second
        ensures first' == first && second == rest
      {
        SameSplit(first, rest, first', second);
      }
    }
  }

  lemma EmptyIsNoUUID()
    ensures TextUUID([]) == None
  {
  }

  lemma {:induction false} SameSplit(a: ByteSeq, b: ByteSeq, a': ByteSeq, b': ByteSeq)
    requires COLON !in a && COLON !in a' && a + [COLON] + b == a' + [COLON] + b'
    ensures a == a' && b == b'
  {
    var s := a + [COLON] + b;
    assert s[|a|] == COLON && s[|a'|] == COLON;
    assert forall i :: 0 <= i < |a| ==> s[i] == a[i];
    assert forall i :: 0 <= i < |a'| ==> s[i] == a'[i];
    assert |a| == |a'|;
    assert a == s[..|a|] == a' && b == s[|a| + 1..] == b';
  }
}
