/** Vehicle discovery: the identification request on its way out, and the responses collected for it. */
module VdConversation {
  import opened Bytes
  import opened DoipMessage
  import opened VehicleInfo
  import StateContext

  const VEHICLE_IDENTIFICATION_REQUEST: u16 := 0x0001
  const VEHICLE_IDENTIFICATION_EID_REQUEST: u16 := 0x0002
  const VEHICLE_IDENTIFICATION_VIN_REQUEST: u16 := 0x0003
  const VEHICLE_ANNOUNCEMENT: u16 := 0x0004
  const UDP_CHANNEL_LENGTH := 41
  const ANNOUNCEMENT_MAX_LENGTH := 33

  datatype IdentificationState = IdentificationIdle | SendRequest | WaitForResponses | CtrlTimeout

  datatype DiscoveryError = SendFailed | InvalidParameters | NoResponseReceived

  datatype DiscoveryResult = DiscoveryFailed(error: DiscoveryError) | Vehicles(list: seq<VehicleAddrInfo>)

  // The request.

  /** What the request string is parsed to. Its length is cut to eight bits first. */
  function Preselection(mode: byte, value: text, junk: byte): seq<byte> {
    if mode == 1 then value[..|value| % 0x100]
    else if mode == 2 then
      var t := WithoutColons(value);
      HexBytes(t, junk)[..(|t| % 0x100 + 1) / 2]
    else []
  }

  function VerifyVehicleInfoRequest(mode: byte, length: byte): bool {
    if mode == 0 && length == 0 then true
    else if mode == 1 && length == 17 then true
    else if mode == 2 && length == 6 then true
    else false
  }

  /** The payload type and length of a request mode. */
  function IdentificationPayloadType(mode: byte): (u16, byte) {
    match mode
    case 0 => (VEHICLE_IDENTIFICATION_REQUEST, 0)
    case 1 => (VEHICLE_IDENTIFICATION_VIN_REQUEST, 17)
    case 2 => (VEHICLE_IDENTIFICATION_EID_REQUEST, 6)
    case _ => (0, 0)
  }

  predicate Verified(mode: byte, value: text, junk: byte) {
    VerifyVehicleInfoRequest(mode, |Preselection(mode, value, junk)| % 0x100)
  }

  /** The frame is an identification request carrying `body`, as a decoder reads it. */
  predicate IsIdentificationRequest(frame: seq<byte>, mode: byte, body: seq<byte>) {
    && |frame| >= HEADER_SIZE
    && SynchronisationPattern(frame[0], frame[1])
    && PayloadLength(frame) == |frame| - HEADER_SIZE
    && PayloadType(frame) == (if mode == 0 then 0x0001 else if mode == 1 then 0x0003 else 0x0002)
    && frame[HEADER_SIZE..] == body
  }

  /** The frame carries the type and length of the mode, and the value unless the mode has none. */
  predicate IsRequestOf(frame: seq<byte>, payload: seq<byte>)
    requires |payload| >= 2
  {
    var payloadType := IdentificationPayloadType(payload[1]);
    IsFrame(frame, payloadType.0, payloadType.1, if payload[1] == 0 then [] else payload[2..])
  }

  predicate IsFrame(frame: seq<byte>, payloadType: u16, length: byte, body: seq<byte>) {
    && |frame| >= HEADER_SIZE
    && SynchronisationPattern(frame[0], frame[1])
    && PayloadType(frame) == payloadType
    && PayloadLength(frame) == length
    && frame[HEADER_SIZE..] == body
  }

  /** Such a frame is an identification request exactly for a proper payload, but for a value without a mode. */
  lemma RequestOfProper(payload: seq<byte>)
    requires |payload| >= 2 && (payload[1] == 0 ==> |payload| == 2)
    ensures forall frame :: IsRequestOf(frame, payload) ==>
              (IsIdentificationRequest(frame, payload[1], payload[2..]) <==> ProperPayload(payload))
  {
    forall frame | IsRequestOf(frame, payload)
      ensures IsIdentificationRequest(frame, payload[1], payload[2..]) <==> ProperPayload(payload)
    {
      assert |frame| == HEADER_SIZE + |frame[HEADER_SIZE..]|;
    }
  }

  /** The serialized request: handler type 0, the mode, and a value of the length the mode asks for. */
  predicate ProperPayload(payload: seq<byte>) {
    |payload| >= 2 && payload[1] <= 2 && |payload| == 2 + IdentificationPayloadType(payload[1]).1
  }

  function SerializeVehicleInfoList(mode: byte, preselection: seq<byte>): seq<byte> {
    [0, mode] + preselection
  }

  lemma VerifiedProper(mode: byte, value: text, junk: byte)
    requires Verified(mode, value, junk)
    ensures var payload := SerializeVehicleInfoList(mode, Preselection(mode, value, junk));
            ProperPayload(payload) && payload[0] == 0 && payload[1] == mode && payload[2..] == Preselection(mode, value, junk)
  {
    var p := Preselection(mode, value, junk);
    VerifiedExactly(mode, value, junk);
    if mode == 2 { assert |p| == (|WithoutColons(value)| % 0x100 + 1) / 2 == 6; }
    assert ([0, mode] + p)[2..] == p;
  }

  /**
   * Which strings are accepted. A VIN may be longer than 17 characters by any multiple of 256, in
   * which case its first 17 characters are sent; an EID may lack its last digit.
   */
  lemma {:induction false} VerifiedExactly(mode: byte, value: text, junk: byte)
    ensures Verified(mode, value, junk) <==>
              || mode == 0
              || (mode == 1 && |value| % 0x100 == 17)
              || (mode == 2 && |WithoutColons(value)| % 0x100 in {11, 12})
    ensures mode == 1 && Verified(mode, value, junk) ==>
              (Preselection(mode, value, junk) == value <==> |value| == 17)
  {
    if mode == 1 {
      assert |Preselection(1, value, junk)| == |value| % 0x100;
    } else if mode == 2 {
      var n := |WithoutColons(value)| % 0x100;
      assert |Preselection(2, value, junk)| == (n + 1) / 2;
      SixBytes(n);
    }
  }

  lemma SixBytes(n: byte)
    ensures (n + 1) / 2 % 0x100 == (n + 1) / 2
    ensures (n + 1) / 2 == 6 <==> n in {11, 12}
  {
  }

  /** Bytes written as text come back from a request in full exactly up to 127 of them. */
  lemma {:induction false} EidTextRoundTrip(bytes: seq<byte>, junk: byte)
    ensures Preselection(2, HexText(bytes), junk) == bytes <==> |bytes| <= 127
  {
    HexRoundTrip(bytes, junk);
    StripHexText(bytes);
    DigitsLength(bytes);
    var n := (2 * |bytes| % 0x100 + 1) / 2;
    assert Preselection(2, HexText(bytes), junk) == bytes[..n];
    assert n == |bytes| <==> |bytes| <= 127;
  }

  /** An EID in upper-case or mixed digits asks for the same bytes as its lower-case form. */
  lemma {:induction false} EidIgnoresCase(value: text, junk: byte)
    ensures Preselection(2, value, junk) == Preselection(2, LowerCase(value), junk)
  {
    LowerCaseWithoutColons(value);
    HexIgnoresCase(WithoutColons(value), junk);
  }

  /** The identifier a decoded announcement carries, sent back as a request, is asked for byte by byte. */
  lemma RequestForAnnouncedEid(ipAddress: text, payload: seq<byte>, junk: byte)
    requires |payload| >= ANNOUNCEMENT_SIZE
    ensures var eid := Decode(ipAddress, payload).eid;
            Verified(2, eid, junk)
            && Preselection(2, eid, junk) == payload[19..25]
  {
    var bytes := payload[EID_START..EID_START + ID_LENGTH];
    HexRoundTrip(bytes, junk);
    assert HexBytes(WithoutColons(HexText(bytes)), junk)[..6] == bytes;
  }

  // The responses.

  /** A datagram with the address it came from. */
  datatype Datagram = Datagram(ipAddress: text, frame: seq<byte>)

  function ProcessUdpHeader(frame: seq<byte>): Verdict
    requires |frame| >= HEADER_SIZE
  {
    if SynchronisationPattern(frame[0], frame[1]) then
      if PayloadType(frame) == VEHICLE_ANNOUNCEMENT then
        if PayloadLength(frame) <= PROTOCOL_MAX_PAYLOAD then
          if PayloadLength(frame) <= UDP_CHANNEL_LENGTH then
            if PayloadLength(frame) <= ANNOUNCEMENT_MAX_LENGTH then Accepted
            else Rejected(NACK_INVALID_PAYLOAD_LENGTH)
          else Rejected(NACK_OUT_OF_MEMORY)
        else Rejected(NACK_MESSAGE_TOO_LARGE)
      else Rejected(NACK_UNKNOWN_PAYLOAD)
    else Rejected(NACK_INCORRECT_PATTERN)
  }

  /** The bytes of an announcement: an accepted version, type 0x0004, and a length of at most 33. */
  predicate IsAnnouncement(frame: seq<byte>) {
    && |frame| >= HEADER_SIZE
    && Synchronised(frame) && frame[2..4] == [0x00, 0x04] && BigEndian(frame[4..8]) <= 33
  }

  /** The header check accepts exactly announcements, and refuses with these codes. */
  lemma UdpHeaderCheck(frame: seq<byte>)
    requires |frame| >= HEADER_SIZE
    ensures ProcessUdpHeader(frame).Accepted? <==> IsAnnouncement(frame)
    ensures ProcessUdpHeader(frame)
            == if !Synchronised(frame) then Rejected(0x00)
               else if frame[2..4] != [0x00, 0x04] then Rejected(0x01)
               else if BigEndian(frame[4..8]) > 41 then Rejected(0x03)
               else if BigEndian(frame[4..8]) > 33 then Rejected(0x04)
               else Accepted
  {
    HeaderFields(frame);
    assert PayloadType(frame) == 0x0004 <==> frame[2..4] == [0x00, 0x04];
  }

  /** A datagram long enough for the announcement that its payload is read as. */
  predicate LongEnough(d: Datagram) {
    |d.frame| >= HEADER_SIZE + ANNOUNCEMENT_SIZE
  }

  predicate AllLong(ds: seq<Datagram>) {
    forall i :: 0 <= i < |ds| ==> LongEnough(ds[i])
  }

  /** The record of a datagram, if it passes the header check. */
  function RecordOf(d: Datagram): seq<VehicleAddrInfo>
    requires LongEnough(d)
  {
    if ProcessUdpHeader(d.frame).Accepted? then [Decode(d.ipAddress, d.frame[HEADER_SIZE..])] else []
  }

  function Records(ds: seq<Datagram>): seq<VehicleAddrInfo>
    requires AllLong(ds)
  {
    if ds == [] then [] else Records(ds[..|ds| - 1]) + RecordOf(ds[|ds| - 1])
  }

  lemma RecordsAppend(ds: seq<Datagram>, i: nat)
    requires AllLong(ds) && i < |ds|
    ensures Records(ds[..i + 1]) == Records(ds[..i]) + RecordOf(ds[i])
  {
    assert ds[..i + 1][..i] == ds[..i];
  }

  /** The datagram is an announcement and decodes to this record. */
  predicate AnnouncedBy(d: Datagram, x: VehicleAddrInfo)
    requires LongEnough(d)
  {
    IsAnnouncement(d.frame) && x == Decode(d.ipAddress, d.frame[HEADER_SIZE..])
  }

  ghost predicate Announced(ds: seq<Datagram>, x: VehicleAddrInfo)
    requires AllLong(ds)
  {
    exists i :: 0 <= i < |ds| && AnnouncedBy(ds[i], x)
  }

  lemma RecordOfExactly(d: Datagram, x: VehicleAddrInfo)
    requires LongEnough(d)
    ensures x in RecordOf(d) <==> AnnouncedBy(d, x)
  {
    UdpHeaderCheck(d.frame);
  }

  /** The records of a list of datagrams are those of its announcements. */
  lemma {:induction false} RecordsExactly(ds: seq<Datagram>, x: VehicleAddrInfo)
    requires AllLong(ds)
    ensures x in Records(ds) <==> Announced(ds, x)
  {
    if ds != [] {
      var last := |ds| - 1;
      RecordsExactly(ds[..last], x);
      RecordOfExactly(ds[last], x);
      AnnouncedStep(ds, x);
    }
  }

  lemma AnnouncedStep(ds: seq<Datagram>, x: VehicleAddrInfo)
    requires AllLong(ds) && ds != []
    ensures Announced(ds, x) <==> Announced(ds[..|ds| - 1], x) || AnnouncedBy(ds[|ds| - 1], x)
  {
    var before := ds[..|ds| - 1];
    assert forall i :: 0 <= i < |before| ==> before[i] == ds[i];
    if Announced(before, x) {
      var i :| 0 <= i < |before| && AnnouncedBy(before[i], x);
      assert AnnouncedBy(ds[i], x);
    }
    if Announced(ds, x) {
      var i :| 0 <= i < |ds| && AnnouncedBy(ds[i], x);
      if i < |before| { assert AnnouncedBy(before[i], x); }
    }
  }

  /** `std::map::emplace` for one record after the other. */
  function FirstWins(infos: seq<VehicleAddrInfo>): map<u16, VehicleAddrInfo> {
    if infos == [] then map[]
    else
      var m, x := FirstWins(infos[..|infos| - 1]), infos[|infos| - 1];
      if x.logicalAddress in m then m else m[x.logicalAddress := x]
  }

  /** Record `i` is the first one with its address. */
  predicate IsFirst(infos: seq<VehicleAddrInfo>, i: nat)
    requires i < |infos|
  {
    forall j :: 0 <= j < i ==> infos[j].logicalAddress != infos[i].logicalAddress
  }

  /** `x` is the first record with its address. */
  ghost predicate First(infos: seq<VehicleAddrInfo>, x: VehicleAddrInfo) {
    exists i :: 0 <= i < |infos| && infos[i] == x && IsFirst(infos, i)
  }

  ghost predicate Occurs(infos: seq<VehicleAddrInfo>, a: u16) {
    exists i :: 0 <= i < |infos| && infos[i].logicalAddress == a
  }

  /** The collection holds, for exactly the addresses that occur, the first record with it. */
  lemma {:induction false} FirstWinsHoldsFirst(infos: seq<VehicleAddrInfo>, a: u16)
    ensures var m := FirstWins(infos);
            && (a in m <==> Occurs(infos, a))
            && (a in m ==> m[a].logicalAddress == a && First(infos, m[a]))
  {
    if infos != [] {
      var last := |infos| - 1;
      var before, m, m', x := infos[..last], FirstWins(infos[..last]), FirstWins(infos), infos[last];
      FirstWinsHoldsFirst(before, a);
      FirstWinsHoldsFirst(before, x.logicalAddress);
      if a in m {
        var i :| 0 <= i < |before| && before[i] == m[a] && IsFirst(before, i);
        assert infos[i] == m'[a] && IsFirst(infos, i);
      } else if x.logicalAddress == a {
        assert forall j :: 0 <= j < last ==> before[j] == infos[j];
        assert infos[last] == m'[a] && IsFirst(infos, last);
      } else {
        assert !Occurs(before, a);
        assert forall i :: 0 <= i < |infos| ==> infos[i] == if i < last then before[i] else x;
      }
    }
  }

  /** Strictly ascending in the address, exactly the addresses that occur, each with its first record. */
  ghost predicate IsDiscoveryList(list: seq<VehicleAddrInfo>, infos: seq<VehicleAddrInfo>) {
    && (forall i, j :: 0 <= i < j < |list| ==> list[i].logicalAddress < list[j].logicalAddress)
    && (forall k :: 0 <= k < |list| ==> First(infos, list[k]))
    && (forall i :: 0 <= i < |infos| ==> Occurs(list, infos[i].logicalAddress))
  }

  /** The list holds the visited part of the collection, all of it below the remaining keys. */
  ghost predicate Listed(list: seq<VehicleAddrInfo>, m: map<u16, VehicleAddrInfo>, keys: set<u16>) {
    && (forall i, j :: 0 <= i < j < |list| ==> list[i].logicalAddress < list[j].logicalAddress)
    && (forall k, a :: 0 <= k < |list| && a in keys ==> list[k].logicalAddress < a)
    && (forall k :: 0 <= k < |list| ==> list[k].logicalAddress in m && list[k] == m[list[k].logicalAddress])
    && (forall a :: a in m && a !in keys ==> Occurs(list, a))
  }

  lemma ListedStep(list: seq<VehicleAddrInfo>, m: map<u16, VehicleAddrInfo>, keys: set<u16>, a: u16)
    requires Listed(list, m, keys) && a in keys && a in m && m[a].logicalAddress == a
    requires forall b :: b in keys ==> a <= b
    ensures Listed(list + [m[a]], m, keys - {a})
  {
    var list' := list + [m[a]];
    forall b | b in m && b !in keys - {a} ensures Occurs(list', b) {
      if b == a {
        assert list'[|list|].logicalAddress == b;
      } else {
        var k :| 0 <= k < |list| && list[k].logicalAddress == b;
        assert list'[k].logicalAddress == b;
      }
    }
  }

  lemma ListedAll(list: seq<VehicleAddrInfo>, infos: seq<VehicleAddrInfo>)
    requires Listed(list, FirstWins(infos), {})
    ensures IsDiscoveryList(list, infos)
  {
    forall k | 0 <= k < |list| ensures First(infos, list[k]) {
      FirstWinsHoldsFirst(infos, list[k].logicalAddress);
    }
    forall i | 0 <= i < |infos| ensures Occurs(list, infos[i].logicalAddress) {
      assert Occurs(infos, infos[i].logicalAddress);
      FirstWinsHoldsFirst(infos, infos[i].logicalAddress);
    }
  }

  /** The map's iteration order is ascending: the least remaining key is visited next. */
  method ListOf(ghost infos: seq<VehicleAddrInfo>, collection: map<u16, VehicleAddrInfo>) returns (list: seq<VehicleAddrInfo>)
    requires collection == FirstWins(infos)
    ensures IsDiscoveryList(list, infos)
  {
    list := [];
    var keys := collection.Keys;
    while keys != {}
      invariant keys <= collection.Keys
      invariant Listed(list, collection, keys)
      decreases keys
    {
      ghost var least := Least(keys);
      var a :| a in keys && forall b :: b in keys ==> a <= b;
      FirstWinsHoldsFirst(infos, a);
      ListedStep(list, collection, keys, a);
      list := list + [collection[a]];
      keys := keys - {a};
    }
    ListedAll(list, infos);
  }

  lemma {:induction false} Least(keys: set<u16>) returns (least: u16)
    requires keys != {}
    ensures least in keys && forall b :: b in keys ==> least <= b
  {
    var x :| x in keys;
    if keys == {x} {
      least := x;
    } else {
      var l := Least(keys - {x});
      least := if l < x then l else x;
      forall b | b in keys ensures least <= b {
        assert b == x || b in keys - {x};
      }
    }
  }

  /** The datagrams that arrive while a request is under way. */
  datatype Schedule = Schedule(
    beforeWrite: seq<Datagram>,
    writeOk: bool,
    beforeTimer: seq<Datagram>,
    blocked: seq<Datagram>,
    afterTimeout: seq<Datagram>)

  predicate AllLongEnough(s: Schedule) {
    AllLong(s.beforeWrite) && AllLong(s.beforeTimer) && AllLong(s.blocked) && AllLong(s.afterTimeout)
  }

  /** The records accepted during one request, given whether it is written successfully. */
  function RecordsOf(s: Schedule): seq<VehicleAddrInfo>
    requires AllLongEnough(s)
  {
    if s.writeOk then Records(s.beforeWrite) + (Records(s.beforeTimer) + Records(s.blocked))
    else Records(s.beforeWrite)
  }

  /** The datagrams that arrive from the transition to waiting until the timeout. */
  function Collected(s: Schedule): seq<Datagram> {
    s.beforeWrite + s.beforeTimer + s.blocked
  }

  /** The two bytes of an announcement that hold the logical address. */
  function AddressOf(d: Datagram): nat
    requires LongEnough(d)
  {
    BigEndian(d.frame[25..27])
  }

  ghost predicate Lists(list: seq<VehicleAddrInfo>, address: nat) {
    exists k :: 0 <= k < |list| && list[k].logicalAddress == address
  }

  /** Every announcement has its address in the list, and every vehicle of the list was announced. */
  ghost predicate Collects(list: seq<VehicleAddrInfo>, earlier: seq<VehicleAddrInfo>, ds: seq<Datagram>)
    requires AllLong(ds)
  {
    && (forall i :: 0 <= i < |ds| && IsAnnouncement(ds[i].frame) ==> Lists(list, AddressOf(ds[i])))
    && (forall k :: 0 <= k < |list| ==> list[k] in earlier || Announced(ds, list[k]))
  }

  lemma {:induction false} RecordsConcat(a: seq<Datagram>, b: seq<Datagram>)
    requires AllLong(a) && AllLong(b)
    ensures AllLong(a + b) && Records(a + b) == Records(a) + Records(b)
  {
    if b == [] {
      assert a + b == a;
    } else {
      assert (a + b)[..|a + b| - 1] == a + b[..|b| - 1];
      RecordsConcat(a, b[..|b| - 1]);
      Associative(Records(a), Records(b[..|b| - 1]), RecordOf(b[|b| - 1]));
    }
  }

  lemma ListCollects(list: seq<VehicleAddrInfo>, earlier: seq<VehicleAddrInfo>, sched: Schedule)
    requires AllLongEnough(sched) && sched.writeOk
    requires IsDiscoveryList(list, earlier + RecordsOf(sched))
    ensures Collects(list, earlier, Collected(sched))
  {
    var ds, infos := Collected(sched), earlier + RecordsOf(sched);
    RecordsConcat(sched.beforeWrite, sched.beforeTimer);
    RecordsConcat(sched.beforeWrite + sched.beforeTimer, sched.blocked);
    Associative(Records(sched.beforeWrite), Records(sched.beforeTimer), Records(sched.blocked));
    assert RecordsOf(sched) == Records(ds);
    forall i | 0 <= i < |ds| && IsAnnouncement(ds[i].frame) ensures Lists(list, AddressOf(ds[i])) {
      var x := Decode(ds[i].ipAddress, ds[i].frame[HEADER_SIZE..]);
      assert AnnouncedBy(ds[i], x);
      RecordsExactly(ds, x);
      AddressListed(list, infos, ds[i], x);
    }
    forall k | 0 <= k < |list| ensures list[k] in earlier || Announced(ds, list[k]) {
      assert First(infos, list[k]);
      assert list[k] in infos;
      RecordsExactly(ds, list[k]);
    }
  }

  lemma AddressListed(list: seq<VehicleAddrInfo>, infos: seq<VehicleAddrInfo>, d: Datagram, x: VehicleAddrInfo)
    requires LongEnough(d) && AnnouncedBy(d, x) && x in infos && IsDiscoveryList(list, infos)
    ensures Lists(list, AddressOf(d))
  {
    AddressDecoded(d, x);
    var j :| 0 <= j < |infos| && infos[j] == x;
    assert Occurs(list, infos[j].logicalAddress);
  }

  lemma AddressDecoded(d: Datagram, x: VehicleAddrInfo)
    requires LongEnough(d) && AnnouncedBy(d, x)
    ensures x.logicalAddress == AddressOf(d)
  {
    BigEndian2(d.frame[25..27]);
  }

  lemma Associative<T>(a: seq<T>, b: seq<T>, c: seq<T>)
    ensures (a + b) + c == a + (b + c)
  {
  }

  lemma InsertAtEnd(s: seq<byte>, t: seq<byte>)
    ensures s[..|s|] + t + s[|s|..] == s + t
    ensures t == [] ==> s + t == s
  {
  }

  lemma FrameParts(header: seq<byte>, payloadType: u16, length: byte, body: seq<byte>)
    requires |header| == HEADER_SIZE && SynchronisationPattern(header[0], header[1])
    requires PayloadType(header) == payloadType && PayloadLength(header) == length
    ensures IsFrame(header + body, payloadType, length, body)
  {
    SameHeader(header, header + body);
  }

  method ComposeIdentificationRequest(payload: seq<byte>) returns (frame: seq<byte>)
    requires |payload| >= 2
    ensures IsRequestOf(frame, payload)
  {
    var payloadType := IdentificationPayloadType(payload[1]);
    frame := CreateGenericHeader(payloadType.0, payloadType.1);
    if payloadType.0 != VEHICLE_IDENTIFICATION_REQUEST {
      InsertAtEnd(frame, payload[2..]);
      FrameParts(frame, payloadType.0, payloadType.1, payload[2..]);
      frame := frame[..HEADER_SIZE] + payload[2..] + frame[HEADER_SIZE..];
    } else {
      InsertAtEnd(frame, []);
      FrameParts(frame, payloadType.0, payloadType.1, []);
    }
  }

  /** Exactly one datagram was handed to the socket, and it is made of this payload. */
  predicate SentRequestOf(before: seq<seq<byte>>, after: seq<seq<byte>>, payload: seq<byte>)
    requires |payload| >= 2
  {
    |after| == |before| + 1 && after[..|before|] == before && IsRequestOf(after[|before|], payload)
  }

  /** Exactly one datagram was handed to the socket, and it is this request. */
  predicate SentOne(before: seq<seq<byte>>, after: seq<seq<byte>>, mode: byte, body: seq<byte>) {
    && |after| == |before| + 1 && after[..|before|] == before
    && IsIdentificationRequest(after[|before|], mode, body)
  }

  class VdConversation {
    const context: StateContext.StateContext<IdentificationState>
    var wire: seq<seq<byte>>
    var collection: map<u16, VehicleAddrInfo>
    /** The records accepted since the collection was last cleared. */
    ghost var accepted: seq<VehicleAddrInfo>

    ghost predicate Valid()
      reads this, context
    {
      && context.Active()
      && context.states.Keys == {IdentificationIdle, SendRequest, WaitForResponses, CtrlTimeout}
      && collection == FirstWins(accepted)
    }

    ghost function State(): IdentificationState
      requires Valid()
      reads this, context
    {
      context.current.value
    }

    constructor ()
      ensures fresh(context) && Valid() && State() == IdentificationIdle
      ensures wire == [] && accepted == []
    {
      wire, collection, accepted := [], map[], [];
      context := new StateContext.StateContext<IdentificationState>();
      new;
      context.AddState(IdentificationIdle, IdentificationIdle);
      context.AddState(SendRequest, SendRequest);
      context.AddState(WaitForResponses, WaitForResponses);
      context.AddState(CtrlTimeout, CtrlTimeout);
      context.TransitionTo(IdentificationIdle);
    }

    method HandleMessage(ipAddress: text, payload: seq<byte>)
      requires Valid() && |payload| >= ANNOUNCEMENT_SIZE
      modifies this`collection, this`accepted
      ensures Valid() && accepted == old(accepted) + [Decode(ipAddress, payload)]
    {
      var info := DeserializeVehicleInfoResponse(ipAddress, payload);
      if info.logicalAddress !in collection {
        collection := collection[info.logicalAddress := info];
      }
      accepted := accepted + [info];
      assert accepted[..|accepted| - 1] == old(accepted);
    }

    /** A datagram counts only while responses are awaited. */
    method HandleMessageUnicast(d: Datagram)
      requires Valid() && LongEnough(d)
      modifies this`collection, this`accepted
      ensures Valid()
      ensures accepted == old(accepted) + if State() == WaitForResponses then RecordOf(d) else []
    {
      if ProcessUdpHeader(d.frame).Accepted? {
        var s := context.GetActiveState();
        if s == WaitForResponses {
          HandleMessage(d.ipAddress, d.frame[HEADER_SIZE..]);
        }
      }
    }

    method Receive(ds: seq<Datagram>)
      requires Valid() && AllLong(ds)
      modifies this`collection, this`accepted
      ensures Valid()
      ensures accepted == old(accepted) + if State() == WaitForResponses then Records(ds) else []
    {
      ghost var counts := State() == WaitForResponses;
      for i := 0 to |ds|
        invariant Valid()
        invariant accepted == old(accepted) + if counts then Records(ds[..i]) else []
      {
        RecordsAppend(ds, i);
        Associative(old(accepted), Records(ds[..i]), RecordOf(ds[i]));
        HandleMessageUnicast(ds[i]);
      }
      assert ds[..|ds|] == ds;
    }

    /** Builds the datagram and hands it to the socket. */
    method SendIdentificationRequest(payload: seq<byte>, writeOk: bool) returns (ok: bool)
      requires |payload| >= 2
      modifies this`wire
      ensures ok == writeOk
      ensures SentRequestOf(old(wire), wire, payload)
    {
      var frame := ComposeIdentificationRequest(payload);
      wire := wire + [frame];
      ok := writeOk;
    }

    /** Collects responses for the whole control time; nothing cancels this timer. */
    method AwaitCtrlTimeout(sched: Schedule)
      requires Valid() && State() == WaitForResponses && AllLongEnough(sched)
      modifies this`collection, this`accepted, context
      ensures Valid() && State() == IdentificationIdle
      ensures accepted == old(accepted) + (Records(sched.beforeTimer) + Records(sched.blocked))
    {
      Receive(sched.beforeTimer);
      Receive(sched.blocked);
      Associative(old(accepted), Records(sched.beforeTimer), Records(sched.blocked));
      context.TransitionTo(CtrlTimeout);
      Receive(sched.afterTimeout);
      context.TransitionTo(IdentificationIdle);
    }

    method HandleIdentificationRequest(payload: seq<byte>, sched: Schedule) returns (ok: bool)
      requires Valid() && AllLongEnough(sched)
      requires |payload| >= 2
      modifies this, context
      ensures Valid()
      ensures old(State()) != IdentificationIdle ==>
                !ok && State() == old(State()) && wire == old(wire) && accepted == old(accepted)
      ensures old(State()) == IdentificationIdle ==>
                && State() == IdentificationIdle && ok == sched.writeOk
                && accepted == old(accepted) + RecordsOf(sched)
                && SentRequestOf(old(wire), wire, payload)
    {
      ok := false;
      var s := context.GetActiveState();
      if s == IdentificationIdle {
        context.TransitionTo(WaitForResponses);
        Receive(sched.beforeWrite);
        var sent := SendIdentificationRequest(payload, sched.writeOk);
        if sent {
          ok := true;
          AwaitCtrlTimeout(sched);
          Associative(old(accepted), Records(sched.beforeWrite), Records(sched.beforeTimer) + Records(sched.blocked));
        } else {
          context.TransitionTo(IdentificationIdle);
        }
      }
    }

    /** Parses the request string. */
    method DeserializeVehicleInfoRequest(mode: byte, value: text, junk: byte) returns (preselection: seq<byte>)
      ensures preselection == Preselection(mode, value, junk)
    {
      preselection := [];
      if mode == 1 {
        preselection := SerializeVINFromString(value, |value| % 0x100);
      } else if mode == 2 {
        var t := WithoutColons(value);
        preselection := SerializeEIDGIDFromString(t, |t| % 0x100, junk);
      }
    }

    /** Hands over the collection, if any, and clears it. */
    method TakeVehicles() returns (result: DiscoveryResult)
      requires Valid()
      modifies this`collection, this`accepted
      ensures Valid() && accepted == []
      ensures if old(accepted) == [] then result == DiscoveryFailed(NoResponseReceived)
              else result.Vehicles? && IsDiscoveryList(result.list, old(accepted))
    {
      FirstWinsEmpty(accepted);
      if collection == map[] {
        result := DiscoveryFailed(NoResponseReceived);
      } else {
        var list := ListOf(accepted, collection);
        result := Vehicles(list);
        collection := map[];
        accepted := [];
      }
    }

    /**
     * One discovery request. A request that passes verification puts exactly its parsed value on the
     * wire; the vehicles it returns are, in ascending order, one per address accepted since the
     * collection was last cleared, each with the first record of its address.
     */
    method SendVehicleIdentificationRequest(mode: byte, value: text, junk: byte, sched: Schedule)
      returns (result: DiscoveryResult)
      requires Valid() && AllLongEnough(sched)
      modifies this, context
      ensures Valid() && State() == old(State())
      ensures result == DiscoveryFailed(InvalidParameters) <==> !Verified(mode, value, junk)
      ensures !Verified(mode, value, junk) || old(State()) != IdentificationIdle ==>
                wire == old(wire) && accepted == old(accepted) && result.DiscoveryFailed?
      ensures Verified(mode, value, junk) && old(State()) == IdentificationIdle ==>
                SentOne(old(wire), wire, mode, Preselection(mode, value, junk))
      ensures Verified(mode, value, junk) && old(State()) == IdentificationIdle && !sched.writeOk ==>
                result == DiscoveryFailed(SendFailed) && accepted == old(accepted) + RecordsOf(sched)
      ensures Verified(mode, value, junk) && old(State()) == IdentificationIdle && sched.writeOk ==>
                && accepted == []
                && var infos := old(accepted) + RecordsOf(sched);
                   if infos == [] then result == DiscoveryFailed(NoResponseReceived)
                   else result.Vehicles? && IsDiscoveryList(result.list, infos)
      ensures Verified(mode, value, junk) && old(State()) == IdentificationIdle && sched.writeOk ==>
                Collects(if result.Vehicles? then result.list else [], old(accepted), Collected(sched))
    {
      result := DiscoveryFailed(SendFailed);
      var preselection := DeserializeVehicleInfoRequest(mode, value, junk);
      if VerifyVehicleInfoRequest(mode, |preselection| % 0x100) {
        VerifiedProper(mode, value, junk);
        var payload := SerializeVehicleInfoList(mode, preselection);
        var ok := HandleIdentificationRequest(payload, sched);
        RequestOfProper(payload);
        if ok {
          result := TakeVehicles();
          ListCollects(if result.Vehicles? then result.list else [], old(accepted), sched);
        }
      } else {
        result := DiscoveryFailed(InvalidParameters);
      }
    }
  }

  lemma FirstWinsEmpty(infos: seq<VehicleAddrInfo>)
    ensures FirstWins(infos) == map[] <==> infos == []
  {
    if infos != [] {
      assert Occurs(infos, infos[0].logicalAddress);
      FirstWinsHoldsFirst(infos, infos[0].logicalAddress);
    }
  }
}
