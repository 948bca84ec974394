/** Conversions between the text of the API and the bytes of vehicle identification messages. */
module VehicleInfo {
  import opened Bytes

  /** A `std::string`: its characters are bytes. */
  type text = seq<byte>

  const COLON: byte := 0x3A

  // Hexadecimal text.

  predicate IsLowerHexDigit(ch: byte) {
    0x30 <= ch <= 0x39 || 0x61 <= ch <= 0x66
  }

  predicate IsHexDigit(ch: byte) {
    IsLowerHexDigit(ch) || 0x41 <= ch <= 0x46
  }

  function DigitValue(ch: byte): byte
    requires IsHexDigit(ch)
  {
    if ch <= 0x39 then ch - 0x30 else if ch <= 0x46 then ch - 0x41 + 10 else ch - 0x61 + 10
  }

  function LowerDigit(v: byte): (ch: byte)
    requires v < 16
    ensures IsLowerHexDigit(ch) && DigitValue(ch) == v
  {
    if v < 10 then 0x30 + v else 0x61 + v - 10
  }

  /** `std::hex` output of a byte: no leading zero. */
  function HexOutput(v: byte): (t: text)
    ensures forall ch :: ch in t ==> IsLowerHexDigit(ch)
  {
    if v < 16 then [LowerDigit(v)] else [LowerDigit(v / 16), LowerDigit(v % 16)]
  }

  /** Two lower-case digits for every byte, separated by colons. */
  function HexText(bytes: seq<byte>): text {
    if bytes == [] then []
    else if |bytes| == 1 then Pair(bytes[0])
    else Pair(bytes[0]) + [COLON] + HexText(bytes[1..])
  }

  function Pair(v: byte): (t: text)
    ensures |t| == 2 && forall ch :: ch in t ==> IsLowerHexDigit(ch)
  {
    [LowerDigit(v / 16), LowerDigit(v % 16)]
  }

  /** `erase(remove(…, ':'))`. */
  function WithoutColons(t: text): text {
    if t == [] then []
    else if t[0] == COLON then WithoutColons(t[1..])
    else [t[0]] + WithoutColons(t[1..])
  }

  predicate IsSpace(ch: byte) {
    ch == 0x20 || 0x09 <= ch <= 0x0D
  }

  /**
   * `stream >> std::hex >> int` on one or two characters, cut to a byte: leading spaces are skipped, a
   * sign is taken, digits are read as far as they go, and a failed conversion gives zero. With nothing
   * but spaces the variable keeps the indeterminate value it was declared with.
   */
  function ExtractHex(chunk: text, indeterminate: byte): byte
    requires 1 <= |chunk| <= 2
  {
    if IsSpace(chunk[0]) then
      if |chunk| == 1 || IsSpace(chunk[1]) then indeterminate
      else if IsHexDigit(chunk[1]) then DigitValue(chunk[1])
      else 0
    else if chunk[0] == 0x2B || chunk[0] == 0x2D then
      if |chunk| == 1 || !IsHexDigit(chunk[1]) then 0
      else if chunk[0] == 0x2B then DigitValue(chunk[1])
      else (0x100 - DigitValue(chunk[1])) % 0x100
    else if !IsHexDigit(chunk[0]) then 0
    else if |chunk| == 1 || !IsHexDigit(chunk[1]) then DigitValue(chunk[0])
    else 16 * DigitValue(chunk[0]) + DigitValue(chunk[1])
  }

  /** The bytes of successive two-character chunks; the last chunk may have one character. */
  function HexBytes(t: text, junk: byte): (bytes: seq<byte>)
    ensures |bytes| == (|t| + 1) / 2
  {
    if t == [] then []
    else if |t| == 1 then [ExtractHex(t, junk)]
    else [ExtractHex(t[..2], junk)] + HexBytes(t[2..], junk)
  }

  /** The end of the range is cut to eight bits; removing the last colon needs a range that is not empty. */
  method ConvertToHexString(charStart: byte, charCount: byte, input: seq<byte>) returns (hex: text)
    requires charStart < RangeEnd(charStart, charCount) <= |input|
    ensures hex == HexText(input[charStart..RangeEnd(charStart, charCount)])
  {
    hex := [];
    var total := RangeEnd(charStart, charCount);
    var i := charStart;
    while i < total
      invariant charStart <= i <= total
      invariant hex == Terminated(input[charStart..i])
    {
      var stream: text := [];
      if input[i] <= 15 {
        stream := stream + [0x30];
      }
      stream := stream + HexOutput(input[i]) + [COLON];
      assert stream == Pair(input[i]) + [COLON];
      hex := hex + stream;
      assert input[charStart..i + 1] == input[charStart..i] + [input[i]];
      TerminatedAppend(input[charStart..i], input[i]);
      i := i + 1;
    }
    TerminatedText(input[charStart..total]);
    hex := hex[..|hex| - 1];
  }

  function RangeEnd(charStart: byte, charCount: byte): byte {
    (charStart + charCount) % 0x100
  }

  /** The text under construction: a colon after every pair. */
  function Terminated(bytes: seq<byte>): text {
    if bytes == [] then [] else Pair(bytes[0]) + [COLON] + Terminated(bytes[1..])
  }

  lemma {:induction false} TerminatedAppend(bytes: seq<byte>, v: byte)
    ensures Terminated(bytes + [v]) == Terminated(bytes) + (Pair(v) + [COLON])
  {
    if bytes == [] {
      assert [v][1..] == [];
      assert Terminated([]) == [];
    } else {
      assert (bytes + [v])[1..] == bytes[1..] + [v];
      TerminatedAppend(bytes[1..], v);
    }
  }

  lemma {:induction false} TerminatedText(bytes: seq<byte>)
    requires bytes != []
    ensures Terminated(bytes) == HexText(bytes) + [COLON]
  {
    if |bytes| == 1 {
      assert Terminated(bytes[1..]) == [];
    } else {
      TerminatedText(bytes[1..]);
    }
  }

  /** The chunks that start within the first `totalSize` characters. */
  method SerializeEIDGIDFromString(input: text, totalSize: byte, junk: byte) returns (output: seq<byte>)
    requires totalSize <= |input|
    ensures output == HexBytes(input, junk)[..(totalSize + 1) / 2]
  {
    output := [];
    var i := 0;
    while i < totalSize
      invariant 0 <= i <= totalSize + 1 && i % 2 == 0
      invariant output == HexBytes(input, junk)[..i / 2]
    {
      HexBytesAt(input, i / 2, junk);
      output := output + [ExtractHex(Chunk(input, i), junk)];
      i := i + 2;
    }
  }

  /** `substr(i, 2)`. */
  function Chunk(t: text, i: nat): text
    requires i < |t|
  {
    if i + 2 <= |t| then t[i..i + 2] else t[i..]
  }

  lemma {:induction false} HexBytesAt(t: text, k: nat, junk: byte)
    requires 2 * k < |t|
    ensures HexBytes(t, junk)[k] == ExtractHex(Chunk(t, 2 * k), junk)
    decreases k
  {
    if k == 0 {
      if |t| == 1 { assert t[0..] == t; }
    } else {
      HexBytesAt(t[2..], k - 1, junk);
      assert Chunk(t[2..], 2 * (k - 1)) == Chunk(t, 2 * k);
    }
  }

  // What the digits and the chunks mean.

  const LOWER_DIGITS := "0123456789abcdef"
  const UPPER_DIGITS := "0123456789ABCDEF"

  /** The characters written for the digits, the two that are read as each, and the spaces. */
  lemma DigitCharacters(v: byte)
    requires v < 16
    ensures LowerDigit(v) == LOWER_DIGITS[v] as int
    ensures forall ch: byte :: IsHexDigit(ch) && DigitValue(ch) == v
              <==> ch == LOWER_DIGITS[v] as int || ch == UPPER_DIGITS[v] as int
    ensures forall ch: byte :: IsSpace(ch) <==> ch in {0x09, 0x0A, 0x0B, 0x0C, 0x0D, 0x20}
  {
  }

  function SkipSpaces(t: text): text {
    if t != [] && IsSpace(t[0]) then SkipSpaces(t[1..]) else t
  }

  /** The number that the leading hexadecimal digits of a text continue `value` to. */
  function ScanDigits(t: text, value: nat): nat {
    if t == [] || !IsHexDigit(t[0]) then value else ScanDigits(t[1..], 16 * value + DigitValue(t[0]))
  }

  /** Reading a number off a stream of any length: spaces, a sign, digits; then the cast to a byte. */
  function Scan(t: text, indeterminate: byte): byte {
    var u := SkipSpaces(t);
    if u == [] then indeterminate
    else if u[0] == 0x2B then ScanDigits(u[1..], 0) % 0x100
    else if u[0] == 0x2D then (0x100 - ScanDigits(u[1..], 0) % 0x100) % 0x100
    else ScanDigits(u, 0) % 0x100
  }

  /** What is extracted from a chunk is what reading a number off it gives. */
  lemma ExtractHexScans(chunk: text, indeterminate: byte)
    requires 1 <= |chunk| <= 2
    ensures ExtractHex(chunk, indeterminate) == Scan(chunk, indeterminate)
  {
    if |chunk| == 2 {
      var last := chunk[1..];
      assert SkipSpaces(last) == if IsSpace(last[0]) then SkipSpaces(last[1..]) else last;
      assert last[1..] == [];
      ScanLast(last, 0);
      if IsHexDigit(chunk[0]) { ScanLast(last, DigitValue(chunk[0])); }
      if !IsSpace(chunk[0]) { assert SkipSpaces(chunk) == chunk; }
    } else {
      assert chunk[1..] == [];
      assert SkipSpaces(chunk) == if IsSpace(chunk[0]) then SkipSpaces([]) else chunk;
      assert ScanDigits([], 0) == 0;
      ScanLast(chunk, 0);
    }
  }

  lemma ScanLast(t: text, value: nat)
    requires |t| == 1
    ensures ScanDigits(t, value) == if IsHexDigit(t[0]) then 16 * value + DigitValue(t[0]) else value
  {
    assert t[1..] == [];
  }

  function LowerCaseOf(ch: byte): byte {
    if 0x41 <= ch <= 0x5A then ch + 0x20 else ch
  }

  function LowerCase(t: text): text {
    if t == [] then [] else [LowerCaseOf(t[0])] + LowerCase(t[1..])
  }

  lemma {:induction false} LowerCaseWithoutColons(t: text)
    ensures WithoutColons(LowerCase(t)) == LowerCase(WithoutColons(t))
  {
    if t != [] { LowerCaseWithoutColons(t[1..]); }
  }

  lemma ExtractIgnoresCase(chunk: text, junk: byte)
    requires 1 <= |chunk| <= 2
    ensures |LowerCase(chunk)| == |chunk| && ExtractHex(LowerCase(chunk), junk) == ExtractHex(chunk, junk)
  {
    var l := LowerCase(chunk);
    assert |l| == |chunk| && l[0] == LowerCaseOf(chunk[0]) && (|chunk| == 2 ==> l[1] == LowerCaseOf(chunk[1])) by {
      if |chunk| == 2 { assert LowerCase(chunk[1..]) == [LowerCaseOf(chunk[1])] + LowerCase(chunk[1..][1..]); }
    }
    assert forall ch: byte :: IsHexDigit(LowerCaseOf(ch)) == IsHexDigit(ch) && IsSpace(LowerCaseOf(ch)) == IsSpace(ch);
    assert forall ch: byte :: IsHexDigit(ch) ==> DigitValue(LowerCaseOf(ch)) == DigitValue(ch);
  }

  /** Upper-case and lower-case texts give the same bytes, whatever else they hold. */
  lemma {:induction false} HexIgnoresCase(t: text, junk: byte)
    ensures |LowerCase(t)| == |t| && HexBytes(LowerCase(t), junk) == HexBytes(t, junk)
  {
    if |t| == 1 {
      ExtractIgnoresCase(t, junk);
    } else if |t| > 1 {
      var l := LowerCase(t);
      assert l == LowerCase(t[..2]) + LowerCase(t[2..]) by {
        assert t[1..][1..] == t[2..] && t[..2][1..] == [t[1]] && [t[1]][1..] == [];
        assert LowerCase(t[..2][1..]) == [LowerCaseOf(t[1])] + LowerCase([]);
        assert LowerCase(t[..2]) == [LowerCaseOf(t[0])] + ([LowerCaseOf(t[1])] + []);
        assert l == [LowerCaseOf(t[0])] + ([LowerCaseOf(t[1])] + LowerCase(t[2..]));
      }
      ExtractIgnoresCase(t[..2], junk);
      HexIgnoresCase(t[2..], junk);
      assert l[..2] == LowerCase(t[..2]) && l[2..] == LowerCase(t[2..]);
    }
  }

  // Round trips.

  lemma {:induction false} StripHexText(bytes: seq<byte>)
    ensures WithoutColons(HexText(bytes)) == Digits(bytes)
  {
    if |bytes| == 1 {
      StripPair(bytes[0], []);
      assert Pair(bytes[0]) + [] == Pair(bytes[0]);
      assert bytes[1..] == [];
    } else if |bytes| > 1 {
      StripHexText(bytes[1..]);
      var rest := [COLON] + HexText(bytes[1..]);
      assert HexText(bytes) == Pair(bytes[0]) + rest;
      assert rest[1..] == HexText(bytes[1..]);
      StripPair(bytes[0], rest);
    }
  }

  function Digits(bytes: seq<byte>): text {
    if bytes == [] then [] else Pair(bytes[0]) + Digits(bytes[1..])
  }

  lemma StripPair(v: byte, rest: text)
    ensures WithoutColons(Pair(v) + rest) == Pair(v) + WithoutColons(rest)
  {
    var t := Pair(v) + rest;
    assert t[1..][1..] == rest;
    assert t[0] in Pair(v) && t[1] in Pair(v);
    assert WithoutColons(t) == [t[0]] + ([t[1]] + WithoutColons(rest));
  }

  lemma {:induction false} ParseDigits(bytes: seq<byte>, junk: byte)
    ensures HexBytes(Digits(bytes), junk) == bytes
  {
    if bytes != [] {
      var t := Digits(bytes);
      assert t[..2] == Pair(bytes[0]) && t[2..] == Digits(bytes[1..]);
      ParseDigits(bytes[1..], junk);
      assert 16 * (bytes[0] / 16) + bytes[0] % 16 == bytes[0];
      assert t[0] in Pair(bytes[0]) && !IsSpace(t[0]);
    }
  }

  /**
   * Bytes written as hexadecimal text and read back, whatever the length. For up to 127 bytes the
   * number of characters survives its cast to eight bits, so all of them are read.
   */
  lemma HexRoundTrip(bytes: seq<byte>, junk: byte)
    ensures HexBytes(WithoutColons(HexText(bytes)), junk) == bytes
    ensures |WithoutColons(HexText(bytes))| % 0x100 == 2 * |bytes| <==> |bytes| <= 127
  {
    StripHexText(bytes);
    ParseDigits(bytes, junk);
    DigitsLength(bytes);
  }

  lemma {:induction false} DigitsLength(bytes: seq<byte>)
    ensures |Digits(bytes)| == 2 * |bytes|
  {
    if bytes != [] { DigitsLength(bytes[1..]); }
  }

  /** Pairs of lower-case digits separated by colons. */
  predicate WellFormedHex(t: text) {
    && |t| % 3 == 2
    && forall i :: 0 <= i < |t| ==> if i % 3 == 2 then t[i] == 0x3A else IsLowerHexDigit(t[i])
  }

  /** Every well-formed text is reproduced from the bytes read off it. */
  lemma {:induction false} HexTextRoundTrip(t: text, junk: byte)
    requires WellFormedHex(t)
    ensures HexText(HexBytes(WithoutColons(t), junk)) == t
  {
    var a, b := t[0], t[1];
    assert IsLowerHexDigit(a) && IsLowerHexDigit(b);
    var v := 16 * DigitValue(a) + DigitValue(b);
    assert v / 16 == DigitValue(a) && v % 16 == DigitValue(b);
    assert Pair(v) == [a, b];
    var rest := t[2..];
    assert t == Pair(v) + rest;
    StripPair(v, rest);
    var stripped := WithoutColons(rest);
    assert WithoutColons(t)[..2] == [a, b] && WithoutColons(t)[2..] == stripped;
    assert ExtractHex([a, b], junk) == v;
    if |t| == 2 {
      assert rest == [] && stripped == [];
      assert WithoutColons(t) == [a, b];
      assert HexBytes([], junk) == [];
      assert HexBytes([a, b], junk) == [v];
    } else {
      assert t[2] == COLON && rest[0] == COLON && rest[1..] == t[3..];
      assert WellFormedHex(t[3..]);
      HexTextRoundTrip(t[3..], junk);
      var others := HexBytes(WithoutColons(t[3..]), junk);
      assert HexBytes(WithoutColons(t), junk) == [v] + others;
      assert others != [] by { StrippedNonEmpty(t[3..]); }
      assert ([v] + others)[1..] == others;
    }
  }

  lemma StrippedNonEmpty(t: text)
    requires WellFormedHex(t)
    ensures WithoutColons(t) != []
  {
    assert IsLowerHexDigit(t[0]);
  }

  /** The text has three characters per byte but for the last colon. */
  lemma {:induction false} HexTextShape(bytes: seq<byte>)
    requires bytes != []
    ensures |HexText(bytes)| == 3 * |bytes| - 1 && WellFormedHex(HexText(bytes))
  {
    if |bytes| > 1 {
      HexTextShape(bytes[1..]);
      var rest := HexText(bytes[1..]);
      var t := HexText(bytes);
      forall i | 0 <= i < |t| ensures if i % 3 == 2 then t[i] == COLON else IsLowerHexDigit(t[i]) {
        if i < 2 { assert t[i] in Pair(bytes[0]); }
        else if i > 2 { assert t[i] == rest[i - 3]; }
      }
    } else {
      var t := HexText(bytes);
      assert t[0] in Pair(bytes[0]) && t[1] in Pair(bytes[0]);
    }
  }

  // VIN text: a byte per character.

  method ConvertToAsciiString(charStart: byte, charCount: byte, input: seq<byte>) returns (ascii: text)
    requires RangeEnd(charStart, charCount) <= |input|
    ensures ascii == if charStart < RangeEnd(charStart, charCount)
                     then input[charStart..RangeEnd(charStart, charCount)] else []
  {
    ascii := [];
    var total := RangeEnd(charStart, charCount);
    var i := charStart;
    while i < total
      invariant charStart < total ==> charStart <= i <= total && ascii == input[charStart..i]
      invariant total <= charStart ==> i == charStart && ascii == []
    {
      ascii := ascii + [input[i]];
      i := i + 1;
    }
  }

  method SerializeVINFromString(input: text, totalSize: byte) returns (output: seq<byte>)
    requires totalSize <= |input|
    ensures output == input[..totalSize]
  {
    output := [];
    var i := 0;
    while i < totalSize
      invariant 0 <= i <= totalSize
      invariant output == input[..i]
    {
      output := output + [input[i]];
      i := i + 1;
    }
  }

  // The announcement.

  const VIN_LENGTH := 17
  const EID_START := 19
  const GID_START := 25
  const ID_LENGTH := 6
  const ANNOUNCEMENT_SIZE := 31

  datatype VehicleAddrInfo = VehicleAddrInfo(
    ipAddress: text,
    logicalAddress: u16,
    vin: text,
    eid: text,
    gid: text)

  /** The record read off an announcement of at least 31 bytes. */
  method DeserializeVehicleInfoResponse(ipAddress: text, payload: seq<byte>) returns (info: VehicleAddrInfo)
    requires |payload| >= ANNOUNCEMENT_SIZE
    ensures info == Decode(ipAddress, payload)
  {
    var vin := ConvertToAsciiString(0, VIN_LENGTH, payload);
    var eid := ConvertToHexString(EID_START, ID_LENGTH, payload);
    var gid := ConvertToHexString(GID_START, ID_LENGTH, payload);
    info := VehicleAddrInfo(ipAddress, U16FromBytes(payload[17], payload[18]), vin, eid, gid);
  }

  function Decode(ipAddress: text, payload: seq<byte>): VehicleAddrInfo
    requires |payload| >= ANNOUNCEMENT_SIZE
  {
    VehicleAddrInfo(
      ipAddress,
      U16FromBytes(payload[17], payload[18]),
      payload[..VIN_LENGTH],
      HexText(payload[EID_START..EID_START + ID_LENGTH]),
      HexText(payload[GID_START..GID_START + ID_LENGTH]))
  }

  /** The bytes a record stands for. */
  function Encode(info: VehicleAddrInfo): seq<byte> {
    info.vin + [ByteAt(info.logicalAddress, 1), ByteAt(info.logicalAddress, 0)]
    + HexBytes(WithoutColons(info.eid), 0) + HexBytes(WithoutColons(info.gid), 0)
  }

  /** Decoding loses none of the first 31 bytes. */
  lemma AnnouncementRoundTrip(ipAddress: text, payload: seq<byte>)
    requires |payload| >= ANNOUNCEMENT_SIZE
    ensures Encode(Decode(ipAddress, payload)) == payload[..ANNOUNCEMENT_SIZE]
  {
    var eid, gid := payload[EID_START..EID_START + ID_LENGTH], payload[GID_START..GID_START + ID_LENGTH];
    HexRoundTrip(eid, 0);
    HexRoundTrip(gid, 0);
    AddressBytes(payload[17], payload[18]);
    assert payload[..ANNOUNCEMENT_SIZE] == payload[..VIN_LENGTH] + [payload[17], payload[18]] + eid + gid;
  }

  /** The record holds these bytes of the payload. */
  lemma AnnouncementFields(ipAddress: text, payload: seq<byte>)
    requires |payload| >= 31
    ensures var info := Decode(ipAddress, payload);
            && info.ipAddress == ipAddress
            && info.vin == payload[0..17]
            && info.logicalAddress == 0x100 * (payload[17] as int) + payload[18]
            && WellFormedHex(info.eid) && HexBytes(WithoutColons(info.eid), 0) == payload[19..25]
            && WellFormedHex(info.gid) && HexBytes(WithoutColons(info.gid), 0) == payload[25..31]
  {
    HexRoundTrip(payload[19..25], 0);
    HexRoundTrip(payload[25..31], 0);
    HexTextShape(payload[19..25]);
    HexTextShape(payload[25..31]);
  }

  lemma AddressBytes(hi: byte, lo: byte)
    ensures ByteAt(U16FromBytes(hi, lo), 1) == hi && ByteAt(U16FromBytes(hi, lo), 0) == lo
  {
  }

  /** So two announcements with the same record agree on them. */
  lemma DecodeInjective(ipAddress: text, p: seq<byte>, q: seq<byte>)
    requires |p| >= ANNOUNCEMENT_SIZE && |q| >= ANNOUNCEMENT_SIZE
    requires Decode(ipAddress, p) == Decode(ipAddress, q)
    ensures p[..ANNOUNCEMENT_SIZE] == q[..ANNOUNCEMENT_SIZE]
  {
    AnnouncementRoundTrip(ipAddress, p);
    AnnouncementRoundTrip(ipAddress, q);
  }
}
