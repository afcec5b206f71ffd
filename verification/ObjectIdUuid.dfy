/** The embedding of 12-byte ObjectIds into UUIDs, and the textual forms of both. */
module ObjectIdUuid {
  import opened Options
  import Numerals

  type Byte = b: int | 0 <= b < 256

  // ----- bytes -----

  /** `bytes.slice(from, to)`: clamps to the length. */
  function Slice(bytes: seq<Byte>, from: nat, to: nat): (part: seq<Byte>)
    requires from <= to
    ensures |part| <= to - from
  {
    if |bytes| <= from then [] else bytes[from..if |bytes| < to then |bytes| else to]
  }

  function Zeros(n: nat): seq<Byte> {
    seq(n, _ => 0)
  }

  function Padded(bytes: seq<Byte>, size: nat): (result: seq<Byte>)
    requires |bytes| <= size
    ensures |result| == size
  {
    bytes + Zeros(size - |bytes|)
  }

  /** Six bytes, the version and variant bytes, the other six bytes, a zero. */
  function UuidBytes(objectId: seq<Byte>): (uuid: seq<Byte>)
    ensures |uuid| == 16
  {
    Padded(Slice(objectId, 0, 6), 6) + [0x80, 0, 0x80] + Padded(Slice(objectId, 6, 12), 7)
  }

  function ObjectIdBytes(uuid: seq<Byte>): (objectId: seq<Byte>)
    requires |uuid| == 16
    ensures |objectId| == 12
  {
    uuid[0..6] + uuid[9..15]
  }

  /** `buffer.set(bytes, offset)`. */
  method SetBytes(buffer: array<Byte>, bytes: seq<Byte>, offset: nat)
    requires offset + |bytes| <= buffer.Length
    modifies buffer
    ensures buffer[..] == old(buffer[..offset]) + bytes + old(buffer[offset + |bytes|..])
  {
    for i := 0 to |bytes|
      invariant forall k :: 0 <= k < buffer.Length ==>
        buffer[k] == if offset <= k < offset + i then bytes[k - offset] else old(buffer[k])
    {
      buffer[offset + i] := bytes[i];
    }
  }

  /** `toUuid` up to the final `stringify`. */
  method FillUuid(objectId: seq<Byte>) returns (uuid: seq<Byte>)
    ensures uuid == UuidBytes(objectId)
  {
    var padded := new Byte[16](_ => 0);
    assert padded[..] == Zeros(16);
    var front, back := Slice(objectId, 0, 6), Slice(objectId, 6, 12);
    SetBytes(padded, front, 0);
    assert padded[..] == Padded(front, 6) + Zeros(10);
    SetBytes(padded, [0x80, 0, 0x80], 6);
    assert padded[..] == Padded(front, 6) + [0x80, 0, 0x80] + Zeros(7);
    SetBytes(padded, back, 9);
    uuid := padded[..];
  }

  /** `toObjectIdBytes` after the initial `parse`. */
  method FillObjectId(uuid: seq<Byte>) returns (objectId: seq<Byte>)
    requires |uuid| == 16
    ensures objectId == ObjectIdBytes(uuid)
  {
    var bytes := new Byte[12](_ => 0);
    SetBytes(bytes, uuid[0..6], 0);
    assert bytes[..6] == uuid[0..6];
    SetBytes(bytes, uuid[9..15], 6);
    objectId := bytes[..];
  }

  /** Every ObjectId comes back from its UUID; so no two ObjectIds share one. */
  lemma ObjectIdRoundTrip(objectId: seq<Byte>, other: seq<Byte>)
    requires |objectId| == |other| == 12
    ensures ObjectIdBytes(UuidBytes(objectId)) == objectId
    ensures UuidBytes(objectId) == UuidBytes(other) ==> objectId == other
  {
    forall x: seq<Byte> | |x| == 12 ensures ObjectIdBytes(UuidBytes(x)) == x {
      assert UuidBytes(x)[0..6] == x[0..6] && UuidBytes(x)[9..15] == x[6..12];
    }
  }

  predicate IsEmbedded(uuid: seq<Byte>) {
    |uuid| == 16 && uuid[6..9] == [0x80, 0, 0x80] && uuid[15] == 0
  }

  /**
   The UUIDs that come back from their ObjectId are exactly the embedded ones; they are version 8 (RFC 9562, section
   5.8).
  */
  lemma UuidRoundTrip(uuid: seq<Byte>)
    requires |uuid| == 16
    ensures UuidBytes(ObjectIdBytes(uuid)) == uuid <==> IsEmbedded(uuid)
    ensures IsEmbedded(uuid) ==> Version(uuid) == 8 && IsValidUuid(uuid)
  {
    var back := UuidBytes(ObjectIdBytes(uuid));
    assert back[0..6] == uuid[0..6] && back[6..9] == [0x80, 0, 0x80] && back[9..15] == uuid[9..15] && back[15] == 0;
    if IsEmbedded(uuid) {
      assert uuid == uuid[0..6] + uuid[6..9] + uuid[9..15] + [uuid[15]];
      assert uuid[6] == uuid[6..9][0] && uuid[8] == uuid[6..9][2];
    }
  }

  // ----- text -----

  function Version(uuid: seq<Byte>): nat
    requires |uuid| == 16
  {
    uuid[6] / 16
  }

  /** What `validate` of the uuid package accepts: versions 1 to 8 of the RFC variant, and the nil and max UUIDs. */
  predicate IsValidUuid(uuid: seq<Byte>) {
    && |uuid| == 16
    && (|| (1 <= Version(uuid) <= 8 && 8 <= uuid[8] / 16 <= 11)
        || (forall b :: b in uuid ==> b == 0)
        || (forall b :: b in uuid ==> b == 255))
  }

  function PadStart(text: string, size: nat, filler: char): string
    decreases size - |text|
  {
    if size <= |text| then text else PadStart([filler] + text, size, filler)
  }

  /** `byte.toString(16).padStart(2, '0')`. */
  function ByteText(b: Byte): string {
    PadStart(Numerals.Print(b, 16), 2, '0')
  }

  lemma ByteTextDigits(b: Byte)
    ensures ByteText(b) == [Numerals.DigitChar(b / 16), Numerals.DigitChar(b % 16)]
  {
    if b < 16 {
      assert Numerals.Digits(b, 16) == [b];
      assert Numerals.Print(b, 16) == [Numerals.DigitChar(b)];
      assert ByteText(b) == PadStart(['0'] + Numerals.Print(b, 16), 2, '0');
      assert b / 16 == 0 && b % 16 == b;
    } else {
      assert Numerals.Digits(b / 16, 16) == [b / 16];
      assert Numerals.Digits(b, 16) == [b / 16, b % 16];
    }
  }

  /** `bytes.reduce((text, byte) => text + ..., '')`. */
  function Hex(bytes: seq<Byte>): (text: string)
    ensures |text| == 2 * |bytes|
  {
    if bytes == [] then "" else
      ByteTextDigits(bytes[|bytes| - 1]);
      Hex(bytes[..|bytes| - 1]) + ByteText(bytes[|bytes| - 1])
  }

  lemma {:induction false} HexPair(bytes: seq<Byte>, i: nat)
    requires i < |bytes|
    ensures Hex(bytes)[2 * i] == Numerals.DigitChar(bytes[i] / 16)
    ensures Hex(bytes)[2 * i + 1] == Numerals.DigitChar(bytes[i] % 16)
  {
    ByteTextDigits(bytes[|bytes| - 1]);
    if i == |bytes| - 1 {
    } else {
      HexPair(bytes[..|bytes| - 1], i);
    }
  }

  predicate IsHex(text: string) {
    forall i :: 0 <= i < |text| ==> Numerals.IsDigit(text[i], 16)
  }

  /** `text.match(/.{1,2}/g)` with `parseInt(pair, 16)`, for an even number of hexadecimal digits. */
  function UnHex(text: string): (bytes: seq<Byte>)
    requires |text| % 2 == 0 && IsHex(text)
    ensures |bytes| == |text| / 2
  {
    seq(|text| / 2, i requires 0 <= i < |text| / 2 =>
      Numerals.DigitOf(text[2 * i], 16) * 16 + Numerals.DigitOf(text[2 * i + 1], 16))
  }

  function LowerChar(c: char): char {
    if 'A' <= c <= 'Z' then 'a' + (c - 'A') else c
  }

  function Lower(text: string): (lower: string)
    ensures |lower| == |text|
  {
    seq(|text|, i requires 0 <= i < |text| => LowerChar(text[i]))
  }

  lemma HexIsHex(bytes: seq<Byte>)
    ensures IsHex(Hex(bytes))
  {
    forall k | 0 <= k < |Hex(bytes)| ensures Numerals.IsDigit(Hex(bytes)[k], 16) {
      var i := k / 2;
      HexPair(bytes, i);
      Nibble(bytes[i] / 16);
      Nibble(bytes[i] % 16);
      assert k == 2 * i || k == 2 * i + 1;
    }
  }

  lemma UnHexOfHex(bytes: seq<Byte>)
    ensures IsHex(Hex(bytes)) && UnHex(Hex(bytes)) == bytes
  {
    HexIsHex(bytes);
    forall i | 0 <= i < |bytes| ensures UnHex(Hex(bytes))[i] == bytes[i] {
      HexPair(bytes, i);
      Nibble(bytes[i] / 16);
      Nibble(bytes[i] % 16);
    }
  }

  lemma Nibble(v: nat)
    requires v < 16
    ensures Numerals.IsDigit(Numerals.DigitChar(v), 16) && Numerals.DigitOf(Numerals.DigitChar(v), 16) == v
  {
  }

  lemma LowerDigit(c: char)
    requires Numerals.IsDigit(c, 16)
    ensures Numerals.DigitChar(Numerals.DigitOf(c, 16)) == LowerChar(c)
  {
  }

  lemma HexPairOfUnHex(text: string, i: nat)
    requires |text| % 2 == 0 && IsHex(text)
    requires 2 * i < |text|
    ensures Hex(UnHex(text))[2 * i] == LowerChar(text[2 * i])
    ensures Hex(UnHex(text))[2 * i + 1] == LowerChar(text[2 * i + 1])
  {
    var high, low := Numerals.DigitOf(text[2 * i], 16), Numerals.DigitOf(text[2 * i + 1], 16);
    var b := UnHex(text)[i];
    assert b == high * 16 + low;
    assert b / 16 == high && b % 16 == low;
    HexPair(UnHex(text), i);
    LowerDigit(text[2 * i]);
    LowerDigit(text[2 * i + 1]);
  }

  /** Texts of the same even length that agree in all pairs are equal. */
  lemma SamePairs(text: string, text': string)
    requires |text| == |text'| && |text| % 2 == 0
    requires forall i :: 0 <= i < |text| / 2 ==> text[2 * i] == text'[2 * i] && text[2 * i + 1] == text'[2 * i + 1]
    ensures text == text'
  {
    forall k | 0 <= k < |text| ensures text[k] == text'[k] {
      var i := k / 2;
      assert text[2 * i] == text'[2 * i] && text[2 * i + 1] == text'[2 * i + 1];
    }
  }

  lemma HexOfUnHex(text: string)
    requires |text| % 2 == 0 && IsHex(text)
    ensures Hex(UnHex(text)) == Lower(text)
  {
    forall i | 0 <= i < |text| / 2
      ensures Hex(UnHex(text))[2 * i] == Lower(text)[2 * i] && Hex(UnHex(text))[2 * i + 1] == Lower(text)[2 * i + 1]
    {
      HexPairOfUnHex(text, i);
    }
    SamePairs(Hex(UnHex(text)), Lower(text));
  }

  function Grouped(digits: string): (text: string)
    requires |digits| == 32
    ensures |text| == 36
  {
    digits[0..8] + "-" + digits[8..12] + "-" + digits[12..16] + "-" + digits[16..20] + "-" + digits[20..32]
  }

  /** `stringify`: hexadecimal digits in groups of 8-4-4-4-12. */
  function Stringify(uuid: seq<Byte>): (text: string)
    requires |uuid| == 16
    ensures |text| == 36
  {
    Grouped(Hex(uuid))
  }

  /** The digits of a text of that shape. */
  function Digits(text: string): (digits: string)
    requires |text| == 36
    ensures |digits| == 32
  {
    text[0..8] + text[9..13] + text[14..18] + text[19..23] + text[24..36]
  }

  predicate HasUuidShape(text: string) {
    && |text| == 36
    && text[8] == '-' && text[13] == '-' && text[18] == '-' && text[23] == '-'
    && IsHex(Digits(text))
  }

  predicate IsUuidText(text: string) {
    HasUuidShape(text) && IsValidUuid(UnHex(Digits(text)))
  }

  /** `parse` of the uuid package; an invalid text is an error. */
  function Parse(text: string): Option<seq<Byte>> {
    if IsUuidText(text) then Some(UnHex(Digits(text))) else None
  }

  lemma DigitsOfGrouped(digits: string)
    requires |digits| == 32
    ensures Digits(Grouped(digits)) == digits
    ensures IsHex(digits) ==> HasUuidShape(Grouped(digits))
  {
    var text := Grouped(digits);
    assert text[0..8] == digits[0..8] && text[9..13] == digits[8..12] && text[14..18] == digits[12..16];
    assert text[19..23] == digits[16..20] && text[24..36] == digits[20..32];
  }

  lemma ParseOfStringify(uuid: seq<Byte>)
    requires IsValidUuid(uuid)
    ensures Parse(Stringify(uuid)) == Some(uuid)
  {
    UnHexOfHex(uuid);
    DigitsOfGrouped(Hex(uuid));
  }

  lemma GroupedDigits(text: string)
    requires HasUuidShape(text)
    ensures Grouped(Digits(text)) == text
  {
    var d := Digits(text);
    assert d[0..8] == text[0..8] && d[8..12] == text[9..13] && d[12..16] == text[14..18];
    assert d[16..20] == text[19..23] && d[20..32] == text[24..36];
    assert text
      == text[0..8] + [text[8]] + text[9..13] + [text[13]] + text[14..18] + [text[18]] + text[19..23] + [text[23]]
        + text[24..36];
  }

  lemma LowerOfGrouped(digits: string)
    requires |digits| == 32
    ensures Lower(Grouped(digits)) == Grouped(Lower(digits))
  {
  }

  lemma StringifyOfParse(text: string)
    requires IsUuidText(text)
    ensures Stringify(Parse(text).value) == Lower(text)
  {
    HexOfUnHex(Digits(text));
    GroupedDigits(text);
    LowerOfGrouped(Digits(text));
  }

  // ----- the converter -----

  /** `isObjectIdString`. */
  predicate IsObjectIdText(text: string) {
    |text| == 24 && IsHex(text)
  }

  /** `toUuid` of the 24 hexadecimal digits of an ObjectId. */
  function ToUuid(objectId: string): string
    requires IsObjectIdText(objectId)
  {
    Stringify(UuidBytes(UnHex(objectId)))
  }

  /** `toObjectId`: the bytes of the ObjectId, or an error. */
  function ToObjectId(uuid: string): (objectId: Option<seq<Byte>>)
    ensures objectId.Some? ==> |objectId.value| == 12
  {
    if IsObjectIdText(uuid) then Some(UnHex(uuid))
    else match Parse(uuid) case None => None case Some(bytes) => Some(ObjectIdBytes(bytes))
  }

  /** `toHexString`. */
  function ToHexString(uuid: string): Option<string> {
    if IsObjectIdText(uuid) then Some(uuid)
    else match Parse(uuid) case None => None case Some(bytes) => Some(Hex(ObjectIdBytes(bytes)))
  }

  lemma EmbeddedIsValid(objectId: seq<Byte>)
    ensures IsValidUuid(UuidBytes(objectId)) && IsEmbedded(UuidBytes(objectId))
  {
  }

  lemma ParsedUuidOf(objectId: string)
    requires IsObjectIdText(objectId)
    ensures |ToUuid(objectId)| == 36 && Parse(ToUuid(objectId)) == Some(UuidBytes(UnHex(objectId)))
  {
    EmbeddedIsValid(UnHex(objectId));
    ParseOfStringify(UuidBytes(UnHex(objectId)));
  }

  lemma {:induction false} HexConcat(front: seq<Byte>, back: seq<Byte>)
    ensures Hex(front + back) == Hex(front) + Hex(back)
  {
    if back == [] {
      assert front + back == front;
    } else {
      var rest, last := back[..|back| - 1], back[|back| - 1];
      HexConcat(front, rest);
      assert (front + back)[..|front + back| - 1] == front + rest;
      assert Hex(front + back) == Hex(front + rest) + ByteText(last);
    }
  }

  lemma HexOfUuid(front: seq<Byte>, back: seq<Byte>)
    requires |front| == |back| == 6
    ensures UuidBytes(front + back) == front + [0x80, 0, 0x80] + back + [0]
    ensures Hex(UuidBytes(front + back)) == Hex(front) + "800080" + Hex(back) + "00"
  {
    var mark, zero: seq<Byte> := [0x80, 0, 0x80], [0];
    assert UuidBytes(front + back) == front + mark + back + zero;
    HexConcat(front + mark + back, zero);
    HexConcat(front + mark, back);
    HexConcat(front, mark);
    MarkText();
  }

  lemma GroupedUuid(front: string, back: string)
    requires |front| == |back| == 12
    ensures Grouped(front + "800080" + back + "00")
         == front[0..8] + "-" + front[8..12] + "-8000-80" + back[0..2] + "-" + back[2..12] + "00"
  {
    var digits := front + "800080" + back + "00";
    assert digits[0..8] == front[0..8] && digits[8..12] == front[8..12] && digits[12..16] == "8000";
    assert digits[16..20] == "80" + back[0..2] && digits[20..32] == back[2..12] + "00";
  }

  lemma HexOfHalves(bytes: seq<Byte>, text: string)
    requires |bytes| == 12 && Hex(bytes) == text
    ensures Hex(bytes[0..6]) == text[0..12] && Hex(bytes[6..12]) == text[12..24]
  {
    assert bytes[0..6] + bytes[6..12] == bytes;
    HexConcat(bytes[0..6], bytes[6..12]);
    SplitOfConcat(Hex(bytes[0..6]), Hex(bytes[6..12]), text);
  }

  lemma SplitOfConcat(front: string, back: string, text: string)
    requires |front| == |back| == 12 && front + back == text
    ensures front == text[0..12] && back == text[12..24]
  {
  }

  /** The text of a UUID: the digits of the ObjectId in their order, with 800080 after the first twelve and 00 last. */
  lemma UuidTextLayout(objectId: string)
    requires IsObjectIdText(objectId)
    ensures ToUuid(objectId)
         == var o := Lower(objectId);
            o[0..8] + "-" + o[8..12] + "-8000-80" + o[12..14] + "-" + o[14..24] + "00"
  {
    var bytes := UnHex(objectId);
    HexOfUnHex(objectId);
    HexOfHalves(bytes, Lower(objectId));
    HexOfUuid(bytes[0..6], bytes[6..12]);
    assert bytes[0..6] + bytes[6..12] == bytes;
    GroupedHalves(Lower(objectId));
  }

  lemma GroupedHalves(o: string)
    requires |o| == 24
    ensures Grouped(o[0..12] + "800080" + o[12..24] + "00")
         == o[0..8] + "-" + o[8..12] + "-8000-80" + o[12..14] + "-" + o[14..24] + "00"
  {
    GroupedUuid(o[0..12], o[12..24]);
    assert o[0..12][0..8] == o[0..8] && o[0..12][8..12] == o[8..12];
    assert o[12..24][0..2] == o[12..14] && o[12..24][2..12] == o[14..24];
  }

  lemma MarkText()
    ensures Hex([0x80, 0, 0x80]) == "800080" && Hex([0]) == "00"
  {
    ByteTextDigits(0x80);
    ByteTextDigits(0);
    assert Hex([0x80]) == Hex([]) + ByteText(0x80);
    assert Hex([0x80, 0]) == Hex([0x80]) + ByteText(0);
    assert Hex([0x80, 0, 0x80]) == Hex([0x80, 0]) + ByteText(0x80);
    assert Hex([0]) == Hex([]) + ByteText(0);
  }

  /** An ObjectId's text comes back in lower case, so texts that differ in more than case get different UUIDs. */
  lemma HexStringRoundTrip(objectId: string)
    requires IsObjectIdText(objectId)
    ensures ToHexString(ToUuid(objectId)) == Some(Lower(objectId))
  {
    ParsedUuidOf(objectId);
    ObjectIdRoundTrip(UnHex(objectId), UnHex(objectId));
    HexOfUnHex(objectId);
  }

  lemma TextRoundTrip(objectId: string)
    requires IsObjectIdText(objectId)
    ensures ToObjectId(ToUuid(objectId)) == Some(UnHex(objectId))
  {
    ParsedUuidOf(objectId);
    ObjectIdRoundTrip(UnHex(objectId), UnHex(objectId));
  }

  /** A UUID's text comes back exactly when its bytes are embedded and it is written in lower case. */
  lemma UuidTextRoundTrip(uuid: string)
    requires IsUuidText(uuid)
    ensures Stringify(UuidBytes(ToObjectId(uuid).value)) == uuid
       <==> IsEmbedded(Parse(uuid).value) && Lower(uuid) == uuid
  {
    var bytes := Parse(uuid).value;
    UuidRoundTrip(bytes);
    StringifyOfParse(uuid);
    var back := UuidBytes(ObjectIdBytes(bytes));
    EmbeddedIsValid(ObjectIdBytes(bytes));
    ParseOfStringify(back);
    if IsEmbedded(bytes) && Lower(uuid) == uuid {
      assert back == bytes;
    }
  }
}
