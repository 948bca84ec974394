/** DoIP frames: the generic header, the decoder and the verdict of the TCP header check. */
module DoipMessage {
  import opened Bytes

  const PROTOCOL_VERSION: byte := 0x03
  const PROTOCOL_VERSION_DEFAULT: byte := 0xFF
  const HEADER_SIZE := 8
  const ADDRESSES_SIZE := 4
  const TCP_CHANNEL_LENGTH := 4096
  const PROTOCOL_MAX_PAYLOAD := 0xFFFF_FFFF

  const ROUTING_ACTIVATION_REQUEST: u16 := 0x0005
  const ROUTING_ACTIVATION_RESPONSE: u16 := 0x0006
  const ALIVE_CHECK_REQUEST: u16 := 0x0007
  const DIAG_MESSAGE: u16 := 0x8001
  const DIAG_POSITIVE_ACK: u16 := 0x8002
  const DIAG_NEGATIVE_ACK: u16 := 0x8003

  const NACK_INCORRECT_PATTERN: byte := 0x00
  const NACK_UNKNOWN_PAYLOAD: byte := 0x01
  const NACK_MESSAGE_TOO_LARGE: byte := 0x02
  const NACK_OUT_OF_MEMORY: byte := 0x03
  const NACK_INVALID_PAYLOAD_LENGTH: byte := 0x04

  /** A received TCP frame, decoded; `payload` starts after the two addresses. */
  datatype Message = Message(
    version: byte,
    inverseVersion: byte,
    payloadType: u16,
    payloadLength: u32,
    clientAddress: u16,
    serverAddress: u16,
    payload: seq<byte>)

  datatype Verdict = Accepted | Rejected(nackCode: byte)

  function PayloadType(frame: seq<byte>): u16
    requires |frame| >= HEADER_SIZE
  {
    U16FromBytes(frame[2], frame[3])
  }

  function PayloadLength(frame: seq<byte>): u32
    requires |frame| >= HEADER_SIZE
  {
    U32FromBytes(frame[4], frame[5], frame[6], frame[7])
  }

  function DecodeTcp(frame: seq<byte>): Message
    requires |frame| >= HEADER_SIZE + ADDRESSES_SIZE
  {
    Message(frame[0], frame[1], PayloadType(frame), PayloadLength(frame),
            U16FromBytes(frame[8], frame[9]), U16FromBytes(frame[10], frame[11]),
            frame[HEADER_SIZE + ADDRESSES_SIZE..])
  }

  /** `~v` cut to eight bits. */
  function Complement(v: byte): byte {
    0xFF - v
  }

  predicate SynchronisationPattern(version: byte, inverseVersion: byte) {
    || (version == PROTOCOL_VERSION && inverseVersion == Complement(PROTOCOL_VERSION))
    || (version == PROTOCOL_VERSION_DEFAULT && inverseVersion == Complement(PROTOCOL_VERSION_DEFAULT))
  }

  function ProcessPayloadLength(length: u32, payloadType: u16): bool {
    if payloadType == ROUTING_ACTIVATION_RESPONSE then length <= 13
    else if payloadType == DIAG_POSITIVE_ACK || payloadType == DIAG_NEGATIVE_ACK then length >= 5
    else if payloadType == DIAG_MESSAGE then length >= 5
    else if payloadType == ALIVE_CHECK_REQUEST then length <= 13
    else false
  }

  function ProcessHeader(m: Message): Verdict {
    if SynchronisationPattern(m.version, m.inverseVersion) then
      if m.payloadType == ROUTING_ACTIVATION_RESPONSE || m.payloadType == DIAG_POSITIVE_ACK
         || m.payloadType == DIAG_NEGATIVE_ACK || m.payloadType == DIAG_MESSAGE
         || m.payloadType == ALIVE_CHECK_REQUEST
      then
        if m.payloadLength <= PROTOCOL_MAX_PAYLOAD then
          if m.payloadLength <= TCP_CHANNEL_LENGTH then
            if ProcessPayloadLength(m.payloadLength, m.payloadType) then Accepted
            else Rejected(NACK_INVALID_PAYLOAD_LENGTH)
          else Rejected(NACK_OUT_OF_MEMORY)
        else Rejected(NACK_MESSAGE_TOO_LARGE)
      else Rejected(NACK_UNKNOWN_PAYLOAD)
    else Rejected(NACK_INCORRECT_PATTERN)
  }

  /** What the TCP channel handler dispatches a received frame to. */
  datatype Received =
    | RoutingResponse(code: byte)
    | DiagResponse(uds: seq<byte>)
    | DiagAck(payloadType: u16, code: byte)
    | Ignored

  function Dispatch(frame: seq<byte>): Received
    requires |frame| > HEADER_SIZE + ADDRESSES_SIZE
  {
    var m := DecodeTcp(frame);
    if ProcessHeader(m).Rejected? then Ignored
    else if m.payloadType == ROUTING_ACTIVATION_RESPONSE then RoutingResponse(m.payload[0])
    else if m.payloadType == DIAG_MESSAGE then DiagResponse(m.payload)
    else if m.payloadType == DIAG_POSITIVE_ACK || m.payloadType == DIAG_NEGATIVE_ACK
    then DiagAck(m.payloadType, m.payload[0])
    else Ignored
  }

  /** The bytes open a frame of one of the two accepted versions. */
  predicate Synchronised(frame: seq<byte>)
    requires |frame| >= 2
  {
    frame[..2] == [0x03, 0xFC] || frame[..2] == [0xFF, 0x00]
  }

  /** Bytes of a field, most significant first. */
  function BigEndian(field: seq<byte>): nat {
    if field == [] then 0 else 0x100 * BigEndian(field[..|field| - 1]) + field[|field| - 1]
  }

  lemma BigEndian2(field: seq<byte>)
    requires |field| == 2
    ensures BigEndian(field) == 0x100 * (field[0] as int) + field[1]
  {
    assert field[..1] == [field[0]] && BigEndian([field[0]]) == field[0];
  }

  lemma BigEndian4(field: seq<byte>)
    requires |field| == 4
    ensures BigEndian(field) == 0x100_0000 * (field[0] as int) + 0x1_0000 * (field[1] as int)
                                + 0x100 * (field[2] as int) + field[3]
  {
    assert field[..3][..2] == field[..2];
    BigEndian2(field[..2]);
  }

  /** Which bytes of a frame reach which handler, and what it is given. */
  lemma DispatchExactly(frame: seq<byte>)
    requires |frame| > 12
    ensures var payloadType, length := BigEndian(frame[2..4]), BigEndian(frame[4..8]);
            Dispatch(frame) ==
            if !Synchronised(frame) || length > 4096 then Ignored
            else if payloadType == 0x0006 && length <= 13 then RoutingResponse(frame[12])
            else if payloadType == 0x8001 && length >= 5 then DiagResponse(frame[12..])
            else if payloadType == 0x8002 && length >= 5 then DiagAck(0x8002, frame[12])
            else if payloadType == 0x8003 && length >= 5 then DiagAck(0x8003, frame[12])
            else Ignored
  {
    HeaderFields(frame);
    HeaderCheck(DecodeTcp(frame));
  }

  /** Appends the eight header bytes one by one. The contract reads them back through the decoder. */
  method CreateGenericHeader(payloadType: u16, payloadLength: u32) returns (buffer: seq<byte>)
    ensures |buffer| == HEADER_SIZE
    ensures SynchronisationPattern(buffer[0], buffer[1]) && buffer[0] == PROTOCOL_VERSION
    ensures PayloadType(buffer) == payloadType
    ensures PayloadLength(buffer) == payloadLength
    ensures buffer[0] == 0x03 && buffer[1] == 0xFC
    ensures BigEndian(buffer[2..4]) == payloadType && BigEndian(buffer[4..8]) == payloadLength
  {
    buffer := [];
    buffer := buffer + [PROTOCOL_VERSION];
    buffer := buffer + [Complement(PROTOCOL_VERSION)];
    buffer := buffer + [ByteAt(payloadType, 1)];
    buffer := buffer + [ByteAt(payloadType, 0)];
    buffer := buffer + [ByteAt(payloadLength, 3)];
    buffer := buffer + [ByteAt(payloadLength, 2)];
    buffer := buffer + [ByteAt(payloadLength, 1)];
    buffer := buffer + [ByteAt(payloadLength, 0)];
    U32RoundTrip(payloadLength);
    assert PayloadType(buffer) == payloadType && PayloadLength(buffer) == payloadLength;
    HeaderFields(buffer);
  }

  /** The two fields of a header, as the standard has them and as the decoder reads them. */
  lemma HeaderFields(frame: seq<byte>)
    requires |frame| >= HEADER_SIZE
    ensures BigEndian(frame[2..4]) == PayloadType(frame) && BigEndian(frame[4..8]) == PayloadLength(frame)
  {
    BigEndian2(frame[2..4]);
    BigEndian4(frame[4..8]);
  }

  /** The frame is a request from `sa` to `ta` carrying `uds`, as the decoder reads it. */
  ghost predicate IsDiagnosticRequest(frame: seq<byte>, sa: u16, ta: u16, uds: seq<byte>) {
    && |frame| == HEADER_SIZE + ADDRESSES_SIZE + |uds|
    && SynchronisationPattern(frame[0], frame[1]) && frame[0] == PROTOCOL_VERSION
    && var m := DecodeTcp(frame);
       && m.payloadType == DIAG_MESSAGE
       && m.payloadLength == Truncate32(ADDRESSES_SIZE + |uds|)
       && m.clientAddress == sa && m.serverAddress == ta
       && m.payload == uds
  }

  /**
   * Composes a diagnostic request. The length field is the 32-bit truncation of the true length,
   * so it is right for every payload of at most 0xFFFFFFFB bytes.
   */
  method ComposeDiagnosticRequest(sa: u16, ta: u16, uds: seq<byte>) returns (frame: seq<byte>)
    ensures IsDiagnosticRequest(frame, sa, ta, uds)
    ensures frame[..4] == [0x03, 0xFC, 0x80, 0x01] && frame[12..] == uds
    ensures BigEndian(frame[4..8]) == (4 + |uds|) % 0x1_0000_0000
    ensures BigEndian(frame[8..10]) == sa && BigEndian(frame[10..12]) == ta
  {
    frame := CreateGenericHeader(DIAG_MESSAGE, Truncate32(ADDRESSES_SIZE + |uds|));
    ghost var header := frame;
    frame := frame + [ByteAt(sa, 1)];
    frame := frame + [ByteAt(sa, 0)];
    frame := frame + [ByteAt(ta, 1)];
    frame := frame + [ByteAt(ta, 0)];
    frame := frame[..HEADER_SIZE + ADDRESSES_SIZE] + uds + frame[HEADER_SIZE + ADDRESSES_SIZE..];
    assert frame == header + [ByteAt(sa, 1), ByteAt(sa, 0), ByteAt(ta, 1), ByteAt(ta, 0)] + uds;
    RequestParts(header, sa, ta, uds, frame);
    RequestBytes(frame, sa, ta, uds);
  }

  /** The bytes of a request, as the standard has them. */
  lemma RequestBytes(frame: seq<byte>, sa: u16, ta: u16, uds: seq<byte>)
    requires IsDiagnosticRequest(frame, sa, ta, uds)
    ensures frame[..4] == [0x03, 0xFC, 0x80, 0x01] && frame[12..] == uds
    ensures BigEndian(frame[4..8]) == (4 + |uds|) % 0x1_0000_0000
    ensures BigEndian(frame[8..10]) == sa && BigEndian(frame[10..12]) == ta
  {
    HeaderFields(frame);
    BigEndian2(frame[8..10]);
    BigEndian2(frame[10..12]);
    TypeBytes(frame);
  }

  lemma TypeBytes(frame: seq<byte>)
    requires |frame| >= HEADER_SIZE && PayloadType(frame) == 0x8001
    ensures frame[2] == 0x80 && frame[3] == 0x01
  {
  }

  /** The header fields are those of the first eight bytes. */
  lemma SameHeader(header: seq<byte>, frame: seq<byte>)
    requires |header| >= HEADER_SIZE && header <= frame
    ensures PayloadType(header) == PayloadType(frame) && PayloadLength(header) == PayloadLength(frame)
  {
  }

  lemma RequestParts(header: seq<byte>, sa: u16, ta: u16, uds: seq<byte>, frame: seq<byte>)
    requires |header| == HEADER_SIZE
    requires SynchronisationPattern(header[0], header[1]) && header[0] == PROTOCOL_VERSION
    requires PayloadType(header) == DIAG_MESSAGE
    requires PayloadLength(header) == Truncate32(ADDRESSES_SIZE + |uds|)
    requires frame == header + [ByteAt(sa, 1), ByteAt(sa, 0), ByteAt(ta, 1), ByteAt(ta, 0)] + uds
    ensures IsDiagnosticRequest(frame, sa, ta, uds)
  {
    assert frame[..HEADER_SIZE] == header;
    assert frame[8] == ByteAt(sa, 1) && frame[9] == ByteAt(sa, 0);
    assert frame[10] == ByteAt(ta, 1) && frame[11] == ByteAt(ta, 0);
    assert frame[HEADER_SIZE + ADDRESSES_SIZE..] == uds;
    SameHeader(header, frame);
    U16RoundTrip(sa);
    U16RoundTrip(ta);
  }

  /** Composes a routing activation request: source address, default activation type, four zeroes. */
  method ComposeRoutingActivationRequest(sa: u16) returns (frame: seq<byte>)
    ensures |frame| == HEADER_SIZE + 7
    ensures SynchronisationPattern(frame[0], frame[1])
    ensures PayloadType(frame) == ROUTING_ACTIVATION_REQUEST
    ensures PayloadLength(frame) == |frame| - HEADER_SIZE
    ensures BigEndian(frame[8..10]) == sa && frame[10..] == [0, 0, 0, 0, 0]
    ensures frame[..8] == [0x03, 0xFC, 0x00, 0x05, 0x00, 0x00, 0x00, 0x07]
  {
    frame := CreateGenericHeader(ROUTING_ACTIVATION_REQUEST, 7);
    frame := frame + [ByteAt(sa, 1)];
    frame := frame + [ByteAt(sa, 0)];
    frame := frame + [0x00];
    frame := frame + [0x00];
    frame := frame + [0x00];
    frame := frame + [0x00];
    frame := frame + [0x00];
    BigEndian2(frame[8..10]);
    U16RoundTrip(sa);
  }

  /** The length field counts the bytes after the header exactly for payloads of up to 0xFFFFFFFB bytes. */
  lemma DiagnosticRequestLength(sa: u16, ta: u16, uds: seq<byte>)
    ensures forall frame :: IsDiagnosticRequest(frame, sa, ta, uds) ==>
              (PayloadLength(frame) == |frame| - HEADER_SIZE <==> |uds| <= 0xFFFF_FFFB)
  {
    Truncation(ADDRESSES_SIZE + |uds|);
  }

  /** The peer's view of such a request: when it is accepted, and with which code it is refused. */
  lemma DiagnosticRequestVerdict(sa: u16, ta: u16, uds: seq<byte>)
    requires |uds| <= 0xFFFF_FFFB
    ensures forall frame :: IsDiagnosticRequest(frame, sa, ta, uds) ==>
              && ProcessHeader(DecodeTcp(frame))
                 == (if |uds| == 0 then Rejected(NACK_INVALID_PAYLOAD_LENGTH)
                     else if |uds| <= 4092 then Accepted
                     else Rejected(NACK_OUT_OF_MEMORY))
              && (1 <= |uds| <= 4092 ==> Dispatch(frame) == DiagResponse(uds))
  {
    DiagnosticRequestLength(sa, ta, uds);
    forall frame | IsDiagnosticRequest(frame, sa, ta, uds)
      ensures DecodeTcp(frame).payloadLength == ADDRESSES_SIZE + |uds|
    {
      assert PayloadLength(frame) == ADDRESSES_SIZE + |uds|;
    }
  }

  /** The header check accepts exactly these messages, and refuses with these codes; 0x02 is never produced. */
  lemma HeaderCheck(m: Message)
    ensures ProcessHeader(m).Accepted? <==>
              && (m.version, m.inverseVersion) in {(0x03, 0xFC), (0xFF, 0x00)}
              && m.payloadLength <= 4096
              && (|| (m.payloadType in {0x0006, 0x0007} && m.payloadLength <= 13)
                  || (m.payloadType in {0x8001, 0x8002, 0x8003} && m.payloadLength >= 5))
    ensures ProcessHeader(m) == Rejected(0x00) <==> (m.version, m.inverseVersion) !in {(0x03, 0xFC), (0xFF, 0x00)}
    ensures ProcessHeader(m) == Rejected(0x01) <==>
              && (m.version, m.inverseVersion) in {(0x03, 0xFC), (0xFF, 0x00)}
              && m.payloadType !in {0x0006, 0x0007, 0x8001, 0x8002, 0x8003}
    ensures ProcessHeader(m) != Rejected(0x02)
    ensures ProcessHeader(m) == Rejected(0x03) <==>
              && (m.version, m.inverseVersion) in {(0x03, 0xFC), (0xFF, 0x00)}
              && m.payloadType in {0x0006, 0x0007, 0x8001, 0x8002, 0x8003} && m.payloadLength > 4096
  {
  }
}
