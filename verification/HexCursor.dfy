/** The text form of a page cursor (crates/service/src/service_keyset_cursor.rs 22-91). */
module HexCursor {
  import opened Common

  type Byte = x: int | 0 <= x < 256

  const DIGITS := "0123456789abcdef"

  // ----- hexadecimal ------------------------------------------------------------------------

  function DigitValue(c: char): (v: int)
    requires IsHexDigit(c)
    ensures 0 <= v < 16 && DIGITS[v] == c
  {
    if c <= '9' then c as int - '0' as int else c as int - 'a' as int + 10
  }

  predicate IsLowercaseHex(text: string) {
    |text| % 2 == 0 && forall i :: 0 <= i < |text| ==> IsHexDigit(text[i])
  }

  function Hex(bytes: seq<Byte>): string {
    if bytes == [] then ""
    else Hex(bytes[..|bytes| - 1]) + [DIGITS[bytes[|bytes| - 1] / 16], DIGITS[bytes[|bytes| - 1] % 16]]
  }

  method LowercaseHex(bytes: seq<Byte>) returns (text: string)
    ensures text == Hex(bytes)
  {
    text := "";
    for i := 0 to |bytes|
      invariant text == Hex(bytes[..i])
    {
      text := text + [DIGITS[bytes[i] / 16]];
      text := text + [DIGITS[bytes[i] % 16]];
      assert bytes[..i + 1][..i] == bytes[..i];
    }
    assert bytes[..|bytes|] == bytes;
  }

  function PairValue(text: string, i: nat): Byte
    requires IsLowercaseHex(text) && 2 * i < |text|
  {
    DigitValue(text[2 * i]) * 16 + DigitValue(text[2 * i + 1])
  }

  function DecodeHex(text: string): Option<seq<Byte>> {
    if !IsLowercaseHex(text) then None
    else Some(seq(|text| / 2, i requires 0 <= i < |text| / 2 => PairValue(text, i)))
  }

  lemma {:induction false} HexLength(bytes: seq<Byte>)
    ensures |Hex(bytes)| == 2 * |bytes|
  {
    if bytes != [] {
      HexLength(bytes[..|bytes| - 1]);
    }
  }

  lemma {:induction false} HexAt(bytes: seq<Byte>, i: nat)
    requires i < |bytes|
    ensures |Hex(bytes)| == 2 * |bytes|
    ensures Hex(bytes)[2 * i] == DIGITS[bytes[i] / 16] && Hex(bytes)[2 * i + 1] == DIGITS[bytes[i] % 16]
  {
    HexLength(bytes);
    HexLength(bytes[..|bytes| - 1]);
    if i < |bytes| - 1 {
      HexAt(bytes[..|bytes| - 1], i);
    }
  }

  lemma DigitsAreDistinct(v: int)
    requires 0 <= v < 16
    ensures IsHexDigit(DIGITS[v]) && DigitValue(DIGITS[v]) == v
  {
  }

  lemma Halves(high: int, low: int)
    requires 0 <= high < 16 && 0 <= low < 16
    ensures (high * 16 + low) / 16 == high && (high * 16 + low) % 16 == low
  {
  }

  lemma HexIsDigits(bytes: seq<Byte>)
    ensures IsLowercaseHex(Hex(bytes)) && |Hex(bytes)| == 2 * |bytes|
  {
    HexLength(bytes);
    forall k | 0 <= k < |Hex(bytes)| ensures IsHexDigit(Hex(bytes)[k]) {
      var i := k / 2;
      HexAt(bytes, i);
      DigitsAreDistinct(bytes[i] / 16);
      DigitsAreDistinct(bytes[i] % 16);
      assert k == 2 * i || k == 2 * i + 1;
    }
  }

  lemma PairOfHex(bytes: seq<Byte>, i: nat)
    requires i < |bytes| && IsLowercaseHex(Hex(bytes)) && |Hex(bytes)| == 2 * |bytes|
    ensures PairValue(Hex(bytes), i) == bytes[i]
  {
    HexAt(bytes, i);
    DigitsAreDistinct(bytes[i] / 16);
    DigitsAreDistinct(bytes[i] % 16);
  }

  /** Decoding inverts encoding. */
  lemma EncodedDecodes(bytes: seq<Byte>)
    ensures DecodeHex(Hex(bytes)) == Some(bytes)
  {
    HexIsDigits(bytes);
    var decoded := DecodeHex(Hex(bytes)).value;
    forall i | 0 <= i < |bytes| ensures decoded[i] == bytes[i] {
      PairOfHex(bytes, i);
    }
    assert decoded == bytes;
  }

  lemma DigitsOfByte(b: Byte, high: char, low: char)
    requires IsHexDigit(high) && IsHexDigit(low) && b == DigitValue(high) * 16 + DigitValue(low)
    ensures DIGITS[b / 16] == high && DIGITS[b % 16] == low
  {
    var h, l := DigitValue(high), DigitValue(low);
    Halves(h, l);
    assert b / 16 == h && b % 16 == l;
  }

  lemma HexOfPair(text: string, bytes: seq<Byte>, i: nat)
    requires DecodeHex(text) == Some(bytes) && i < |bytes|
    ensures DIGITS[bytes[i] / 16] == text[2 * i] && DIGITS[bytes[i] % 16] == text[2 * i + 1]
  {
    assert bytes[i] == PairValue(text, i);
    DigitsOfByte(bytes[i], text[2 * i], text[2 * i + 1]);
  }

  /** A text decodes to the only bytes that encode to it, and fails exactly when no bytes do. */
  lemma DecodedReencodes(text: string, bytes: seq<Byte>)
    ensures DecodeHex(text) == Some(bytes) <==> Hex(bytes) == text
    ensures DecodeHex(text) == None ==> Hex(bytes) != text
  {
    EncodedDecodes(bytes);
    if DecodeHex(text) == Some(bytes) {
      HexLength(bytes);
      forall k | 0 <= k < |text| ensures Hex(bytes)[k] == text[k] {
        HexAt(bytes, k / 2);
        HexOfPair(text, bytes, k / 2);
        assert k == 2 * (k / 2) || k == 2 * (k / 2) + 1;
      }
    }
  }

  // ----- cursors ----------------------------------------------------------------------------

  datatype Cursor = Cursor(
    version: Byte, operation: string, queryDigest: string, sourceRevision: string, sortValue: Int64, stableId: string,
    tieBreakerDigest: Option<string>, acceptedCount: Option<Usize>, processedPrefixDigest: Option<string>,
    resolvedStartAt: Option<Int64>, resolvedEndAt: Option<Int64>)

  datatype CursorError = WrongEncoding | NotHexadecimal | InvalidPayload | OtherQuery

  /** Reading back what was written; the JSON layer. The fields have the ranges of the integers that carry them. */
  ghost predicate ReadsBack(write: Cursor -> seq<Byte>, read: seq<Byte> -> Option<Cursor>) {
    forall c :: read(write(c)) == Some(c)
  }

  method EncodeCursor(c: Cursor, write: Cursor -> seq<Byte>) returns (text: string)
    ensures text == Encoded(c, write)
  {
    var hex := LowercaseHex(write(c));
    text := "v1:" + hex;
  }

  function Encoded(c: Cursor, write: Cursor -> seq<Byte>): string {
    "v1:" + Hex(write(c))
  }

  function DecodeCursorForMethod(
    text: string, operation: string, read: seq<Byte> -> Option<Cursor>): Result<Cursor, CursorError>
  {
    if !("v1:" <= text) then Err(WrongEncoding)
    else
      match DecodeHex(text[3..])
      case None => Err(NotHexadecimal)
      case Some(bytes) =>
        match read(bytes)
        case None => Err(InvalidPayload)
        case Some(c) => if c.version != 1 || c.operation != operation then Err(OtherQuery) else Ok(c)
  }

  function DecodeCursor(
    text: string, operation: string, queryDigest: string, read: seq<Byte> -> Option<Cursor>)
    : Result<Cursor, CursorError>
  {
    match DecodeCursorForMethod(text, operation, read)
    case Err(e) => Err(e)
    case Ok(c) => if c.queryDigest != queryDigest then Err(OtherQuery) else Ok(c)
  }

  /** An encoded cursor decodes to itself for its own method and query, and is refused for every other. */
  lemma CursorRoundTrip(
    c: Cursor, operation: string, queryDigest: string, write: Cursor -> seq<Byte>, read: seq<Byte> -> Option<Cursor>)
    requires ReadsBack(write, read)
    ensures DecodeCursor(Encoded(c, write), operation, queryDigest, read) ==
            if c.version == 1 && c.operation == operation && c.queryDigest == queryDigest then Ok(c)
            else Err(OtherQuery)
  {
    EncodedDecodes(write(c));
    assert Encoded(c, write)[3..] == Hex(write(c));
  }

  /** An accepted text is `v1:` and the encoding of bytes that read as the cursor; only one text carries given bytes. */
  lemma AcceptedCursorText(
    text: string, operation: string, queryDigest: string, read: seq<Byte> -> Option<Cursor>, bytes: seq<Byte>)
    requires DecodeCursor(text, operation, queryDigest, read).Ok?
    ensures DecodeHex(text[3..]) == Some(bytes) <==> text == "v1:" + Hex(bytes)
    ensures text == "v1:" + Hex(bytes) ==>
              && read(bytes) == Some(DecodeCursor(text, operation, queryDigest, read).value)
              && read(bytes).value.version == 1 && read(bytes).value.operation == operation
              && read(bytes).value.queryDigest == queryDigest
  {
    DecodedReencodes(text[3..], bytes);
    assert text == "v1:" + text[3..];
    assert ("v1:" + Hex(bytes))[3..] == Hex(bytes);
  }
}
