/**
 * What a diagnostic request should come to, over a timed list of received frames and without any
 * timer or state machine: a window of P2, then of P2* restarted by every pending answer.
 */
module ResponseWindow {
  import opened Bytes
  import opened DiagnosticExchange
  import opened ExchangeSafety

  /** The times are in milliseconds. */
  datatype Settings = Settings(sourceAddress: u16, buffer: Config, p2: nat, p2Star: nat)

  const ACK_TIMEOUT := 2000

  /** A frame that reaches the socket at a time; the reader takes frames in order. */
  datatype Arrival = Arrival(at: nat, frame: Frame)

  /** What a wait comes to: its result, when it ends, and what it leaves behind. */
  datatype Answer = Answer(
    outcome: Outcome,
    end: nat,
    rest: seq<Arrival>,
    channel: ChannelState,
    buffer: seq<byte>,
    pending: nat)

  /** The time the next frame is handled, if it is handled before `expiry`. */
  function Later(now: nat, at: nat): nat {
    if now < at then at else now
  }

  predicate Expires(now: nat, expiry: nat, arrivals: seq<Arrival>) {
    arrivals == [] || Later(now, arrivals[0].at) >= expiry
  }

  /** The frames left when every frame before `expiry` is received and ignored. */
  function Ignore(now: nat, expiry: nat, arrivals: seq<Arrival>): seq<Arrival>
    decreases |arrivals|
  {
    if Expires(now, expiry, arrivals) then arrivals
    else Ignore(Later(now, arrivals[0].at), expiry, arrivals[1..])
  }

  /** The wait for an acknowledgement: the first one before `expiry` decides. */
  function AwaitAck(now: nat, expiry: nat, buffer: seq<byte>, arrivals: seq<Arrival>): Answer
    decreases |arrivals|
  {
    if Expires(now, expiry, arrivals) then
      Answer(Failed(AckTimeout), Later(now, expiry), arrivals, ChannelIdle, buffer, 0)
    else
      var t, rest := Later(now, arrivals[0].at), arrivals[1..];
      match arrivals[0].frame
      case ResponseFrame(_) => AwaitAck(t, expiry, buffer, rest)
      case AckFrame(payloadType, code) =>
        if AckState(payloadType, code) == PositiveAckReceived
        then Answer(Response, t, rest, WaitForResponse, buffer, 0)
        else Answer(Failed(NegAckReceived), t, rest, ChannelIdle, buffer, 0)
  }

  /**
   * The wait for the final response. A pending answer before `expiry` opens a new window of P2*; a
   * response that does not fit closes the channel, so that only the timeout is left.
   */
  function Await(c: Settings, now: nat, expiry: nat, buffer: seq<byte>, arrivals: seq<Arrival>): Answer
    decreases |arrivals|
  {
    if Expires(now, expiry, arrivals) then
      Answer(Failed(ResponseTimeout), Later(now, expiry), arrivals, WaitForResponse, buffer, 0)
    else
      var t, rest := Later(now, arrivals[0].at), arrivals[1..];
      match arrivals[0].frame
      case AckFrame(_, _) => Await(c, t, expiry, buffer, rest)
      case ResponseFrame(uds) =>
        if IsFinal(c.buffer, uds) then Answer(Response, t, rest, ChannelIdle, uds, 0)
        else if KeepsWaiting(c.buffer, uds) then OneMore(Await(c, t, t + c.p2Star, buffer, rest))
        else Answer(Failed(ResponseTimeout), expiry, Ignore(t, expiry, rest), ChannelIdle, buffer, 0)
  }

  function OneMore(a: Answer): Answer {
    a.(pending := a.pending + 1)
  }

  /** The whole request on an idle channel, after a successful write. */
  function Exchange(c: Settings, now: nat, buffer: seq<byte>, arrivals: seq<Arrival>): Answer {
    var ack := AwaitAck(now, now + ACK_TIMEOUT, buffer, arrivals);
    if ack.outcome.Failed? then ack
    else Await(c, ack.end, ack.end + c.p2, buffer, ack.rest)
  }

  // What the recursion says about the list of frames.

  /** The number of accepted pending answers in a list. */
  function Pendings(c: Config, arrivals: seq<Arrival>): nat {
    if arrivals == [] then 0
    else Pendings(c, arrivals[..|arrivals| - 1])
         + if PendingFrame(c, arrivals[|arrivals| - 1].frame) then 1 else 0
  }

  predicate PendingFrame(c: Config, f: Frame) {
    f.ResponseFrame? && KeepsWaiting(c, f.uds)
  }

  lemma {:induction false} PendingsCons(c: Config, a: Arrival, rest: seq<Arrival>)
    ensures Pendings(c, [a] + rest) == Pendings(c, rest) + if PendingFrame(c, a.frame) then 1 else 0
  {
    var all := [a] + rest;
    if rest == [] {
      assert all[..0] == [];
    } else {
      assert all[..|all| - 1] == [a] + rest[..|rest| - 1];
      PendingsCons(c, a, rest[..|rest| - 1]);
    }
  }

  /** Frame `i` gives the answer: only acknowledgements and pending answers precede it. */
  predicate AnsweredAt(c: Config, arrivals: seq<Arrival>, a: Answer, i: nat) {
    && i < |arrivals|
    && arrivals[i].frame == ResponseFrame(a.buffer) && IsFinal(c, a.buffer)
    && (forall j :: 0 <= j < i ==> arrivals[j].frame.AckFrame? || PendingFrame(c, arrivals[j].frame))
    && a.rest == arrivals[i + 1..]
    && a.pending == Pendings(c, arrivals[..i])
  }

  lemma AnsweredLater(c: Config, arrivals: seq<Arrival>, a: Answer, b: Answer, i: nat)
    requires arrivals != [] && AnsweredAt(c, arrivals[1..], b, i)
    requires arrivals[0].frame.AckFrame? || PendingFrame(c, arrivals[0].frame)
    requires a.buffer == b.buffer && a.rest == b.rest
    requires a.pending == b.pending + if PendingFrame(c, arrivals[0].frame) then 1 else 0
    ensures AnsweredAt(c, arrivals, a, i + 1)
  {
    var rest := arrivals[1..];
    assert arrivals[..i + 1] == [arrivals[0]] + rest[..i];
    PendingsCons(c, arrivals[0], rest[..i]);
    assert arrivals[i + 2..] == rest[i + 1..];
    forall j | 0 <= j < i + 1
      ensures arrivals[j].frame.AckFrame? || PendingFrame(c, arrivals[j].frame)
    {
      if j > 0 { assert arrivals[j] == rest[j - 1]; }
    }
  }

  /**
   * A returned response is the first frame that is neither an acknowledgement nor a pending answer;
   * everything before it was consumed, everything after it is still to come.
   */
  lemma {:induction false} AwaitResponse(c: Settings, now: nat, expiry: nat, buffer: seq<byte>, arrivals: seq<Arrival>)
    requires Await(c, now, expiry, buffer, arrivals).outcome == Response
    ensures exists i :: AnsweredAt(c.buffer, arrivals, Await(c, now, expiry, buffer, arrivals), i)
    decreases |arrivals|
  {
    var a := Await(c, now, expiry, buffer, arrivals);
    var t, f := Later(now, arrivals[0].at), arrivals[0].frame;
    if f.ResponseFrame? && IsFinal(c.buffer, f.uds) {
      assert arrivals[..0] == [];
      assert AnsweredAt(c.buffer, arrivals, a, 0);
    } else {
      var expiry' := if f.AckFrame? then expiry else t + c.p2Star;
      AwaitResponse(c, t, expiry', buffer, arrivals[1..]);
      var b := Await(c, t, expiry', buffer, arrivals[1..]);
      var i :| AnsweredAt(c.buffer, arrivals[1..], b, i);
      AnsweredLater(c.buffer, arrivals, a, b, i);
    }
  }

  // When exactly a wait succeeds.

  /** When frame `i` is handled: once it is there and all before it are handled. */
  function HandledAt(now: nat, arrivals: seq<Arrival>, i: nat): nat
    requires i < |arrivals|
  {
    Later(if i == 0 then now else HandledAt(now, arrivals, i - 1), arrivals[i].at)
  }

  lemma {:induction false} HandledAtRest(now: nat, arrivals: seq<Arrival>, i: nat)
    requires i + 1 < |arrivals|
    ensures HandledAt(now, arrivals, i + 1) == HandledAt(Later(now, arrivals[0].at), arrivals[1..], i)
  {
    if i > 0 { HandledAtRest(now, arrivals, i - 1); }
  }

  /** The first acknowledgement is frame `i`, handled before `expiry`. */
  predicate FirstAck(now: nat, expiry: nat, arrivals: seq<Arrival>, i: nat) {
    && i < |arrivals| && arrivals[i].frame.AckFrame?
    && (forall j :: 0 <= j < i ==> arrivals[j].frame.ResponseFrame?)
    && HandledAt(now, arrivals, i) < expiry
  }

  lemma {:induction false} HandledInOrder(now: nat, arrivals: seq<Arrival>, i: nat, j: nat)
    requires i <= j < |arrivals|
    ensures HandledAt(now, arrivals, i) <= HandledAt(now, arrivals, j)
  {
    if i < j { HandledInOrder(now, arrivals, i, j - 1); }
  }

  lemma FirstAckRest(now: nat, expiry: nat, arrivals: seq<Arrival>, i: nat)
    requires arrivals != [] && arrivals[0].frame.ResponseFrame?
    ensures FirstAck(now, expiry, arrivals, i + 1) <==> FirstAck(Later(now, arrivals[0].at), expiry, arrivals[1..], i)
  {
    if i + 1 < |arrivals| {
      HandledAtRest(now, arrivals, i);
      assert forall j :: 0 < j < |arrivals| ==> arrivals[j] == arrivals[1..][j - 1];
    }
  }

  /** The first acknowledgement in time is taken: 0x8002 with code 0x00 passes, any other refuses. */
  lemma {:induction false} AckTaken(now: nat, expiry: nat, buffer: seq<byte>, arrivals: seq<Arrival>, i: nat)
    requires FirstAck(now, expiry, arrivals, i)
    ensures var a := AwaitAck(now, expiry, buffer, arrivals);
            && a.outcome == (if arrivals[i].frame == AckFrame(0x8002, 0x00) then Response else Failed(NegAckReceived))
            && a.end == HandledAt(now, arrivals, i) && a.rest == arrivals[i + 1..]
    decreases i
  {
    HandledInOrder(now, arrivals, 0, i);
    if i > 0 {
      FirstAckRest(now, expiry, arrivals, i - 1);
      HandledAtRest(now, arrivals, i - 1);
      AckTaken(Later(now, arrivals[0].at), expiry, buffer, arrivals[1..], i - 1);
    }
  }

  /** And if none is in time, the wait times out at its expiry. */
  lemma {:induction false} NoAckTaken(now: nat, expiry: nat, buffer: seq<byte>, arrivals: seq<Arrival>)
    requires now <= expiry && forall i :: 0 <= i < |arrivals| ==> !FirstAck(now, expiry, arrivals, i)
    ensures var a := AwaitAck(now, expiry, buffer, arrivals); a.outcome == Failed(AckTimeout) && a.end == expiry
    decreases |arrivals|
  {
    if !Expires(now, expiry, arrivals) {
      assert !FirstAck(now, expiry, arrivals, 0);
      forall i | 0 <= i < |arrivals[1..]|
        ensures !FirstAck(Later(now, arrivals[0].at), expiry, arrivals[1..], i)
      {
        FirstAckRest(now, expiry, arrivals, i);
        assert !FirstAck(now, expiry, arrivals, i + 1);
      }
      NoAckTaken(Later(now, arrivals[0].at), expiry, buffer, arrivals[1..]);
    }
  }

  /** So exactly a positive acknowledgement that is the first one and in time lets a request pass. */
  lemma AckTakenExactly(now: nat, expiry: nat, buffer: seq<byte>, arrivals: seq<Arrival>)
    requires now <= expiry
    ensures AwaitAck(now, expiry, buffer, arrivals).outcome == Response
            <==> exists i: nat :: FirstAck(now, expiry, arrivals, i) && arrivals[i].frame == AckFrame(0x8002, 0x00)
  {
    forall i: nat | FirstAck(now, expiry, arrivals, i)
      ensures AwaitAck(now, expiry, buffer, arrivals).outcome == Response
              <==> arrivals[i].frame == AckFrame(0x8002, 0x00)
    {
      AckTaken(now, expiry, buffer, arrivals, i);
    }
    if AwaitAck(now, expiry, buffer, arrivals).outcome == Response {
      AckExists(now, expiry, buffer, arrivals);
    }
  }

  /** A response that is 7F xx 78 by its bytes and fits the buffer. */
  predicate PendingBytes(c: Config, f: Frame) {
    f.ResponseFrame? && 3 <= |f.uds| <= c.rxBufferSize && f.uds[0] == 0x7F && f.uds[2] == 0x78
  }

  /** A response that fits the buffer and is not 7F xx 78 by its bytes. */
  predicate FinalBytes(c: Config, f: Frame) {
    f.ResponseFrame? && 0 < |f.uds| <= c.rxBufferSize && !PendingBytes(c, f)
  }

  /** When the window ends that frame `i` has to meet: P2* after the latest pending answer before it. */
  function WindowEnd(c: Settings, now: nat, expiry: nat, arrivals: seq<Arrival>, i: nat): nat
    requires i <= |arrivals|
  {
    if i == 0 then expiry
    else if PendingBytes(c.buffer, arrivals[i - 1].frame) then HandledAt(now, arrivals, i - 1) + c.p2Star
    else WindowEnd(c, now, expiry, arrivals, i - 1)
  }

  /**
   * Frame `i` is the final response, only acknowledgements and pending answers come before it, and each
   * of them, and it too, is handled before the end of its window.
   */
  predicate FinalInTime(c: Settings, now: nat, expiry: nat, arrivals: seq<Arrival>, i: nat) {
    && i < |arrivals| && FinalBytes(c.buffer, arrivals[i].frame)
    && (forall j :: 0 <= j < i ==> arrivals[j].frame.AckFrame? || PendingBytes(c.buffer, arrivals[j].frame))
    && (forall j :: 0 <= j <= i ==> HandledAt(now, arrivals, j) < WindowEnd(c, now, expiry, arrivals, j))
  }

  lemma {:induction false} WindowEndRest(c: Settings, now: nat, expiry: nat, arrivals: seq<Arrival>, i: nat)
    requires i < |arrivals|
    ensures WindowEnd(c, now, expiry, arrivals, i + 1)
            == WindowEnd(c, Later(now, arrivals[0].at), NextExpiry(c, now, expiry, arrivals), arrivals[1..], i)
  {
    if i > 0 {
      WindowEndRest(c, now, expiry, arrivals, i - 1);
      HandledAtRest(now, arrivals, i - 1);
    }
  }

  function NextExpiry(c: Settings, now: nat, expiry: nat, arrivals: seq<Arrival>): nat
    requires arrivals != []
  {
    if PendingBytes(c.buffer, arrivals[0].frame) then Later(now, arrivals[0].at) + c.p2Star else expiry
  }

  lemma FinalInTimeRest(c: Settings, now: nat, expiry: nat, arrivals: seq<Arrival>, i: nat)
    requires arrivals != [] && Later(now, arrivals[0].at) < expiry
    requires arrivals[0].frame.AckFrame? || PendingBytes(c.buffer, arrivals[0].frame)
    ensures FinalInTime(c, now, expiry, arrivals, i + 1)
            <==> FinalInTime(c, Later(now, arrivals[0].at), NextExpiry(c, now, expiry, arrivals), arrivals[1..], i)
  {
    var t, e, rest := Later(now, arrivals[0].at), NextExpiry(c, now, expiry, arrivals), arrivals[1..];
    if i < |rest| {
      forall j | 0 <= j <= i
        ensures rest[j] == arrivals[j + 1]
        ensures HandledAt(now, arrivals, j + 1) == HandledAt(t, rest, j)
        ensures WindowEnd(c, now, expiry, arrivals, j + 1) == WindowEnd(c, t, e, rest, j)
      {
        HandledAtRest(now, arrivals, j);
        WindowEndRest(c, now, expiry, arrivals, j);
      }
      if FinalInTime(c, now, expiry, arrivals, i + 1) {
        forall j | 0 <= j <= i ensures HandledAt(t, rest, j) < WindowEnd(c, t, e, rest, j) {
          assert HandledAt(now, arrivals, j + 1) < WindowEnd(c, now, expiry, arrivals, j + 1);
        }
        forall j | 0 <= j < i ensures rest[j].frame.AckFrame? || PendingBytes(c.buffer, rest[j].frame) {
          assert arrivals[j + 1] == rest[j];
        }
      }
      if FinalInTime(c, t, e, rest, i) {
        forall j | 0 <= j <= i + 1
          ensures HandledAt(now, arrivals, j) < WindowEnd(c, now, expiry, arrivals, j)
        {
          if j > 0 { assert HandledAt(t, rest, j - 1) < WindowEnd(c, t, e, rest, j - 1); }
        }
      }
    }
  }

  /** A final response in time is returned, as its bytes. */
  lemma {:induction false} FinalTaken(c: Settings, now: nat, expiry: nat, buffer: seq<byte>, arrivals: seq<Arrival>, i: nat)
    requires FinalInTime(c, now, expiry, arrivals, i)
    ensures var a := Await(c, now, expiry, buffer, arrivals);
            && a.outcome == Response && a.buffer == arrivals[i].frame.uds
            && a.end == HandledAt(now, arrivals, i) && a.rest == arrivals[i + 1..]
    decreases i
  {
    assert HandledAt(now, arrivals, 0) < WindowEnd(c, now, expiry, arrivals, 0);
    if i > 0 {
      FinalInTimeRest(c, now, expiry, arrivals, i - 1);
      HandledAtRest(now, arrivals, i - 1);
      FinalTaken(c, Later(now, arrivals[0].at), NextExpiry(c, now, expiry, arrivals), buffer, arrivals[1..], i - 1);
    }
  }

  /** And if none is, the wait times out. */
  lemma {:induction false} NoFinalTaken(c: Settings, now: nat, expiry: nat, buffer: seq<byte>, arrivals: seq<Arrival>)
    requires forall i :: 0 <= i < |arrivals| ==> !FinalInTime(c, now, expiry, arrivals, i)
    ensures var a := Await(c, now, expiry, buffer, arrivals);
            a.outcome == Failed(ResponseTimeout) && a.buffer == buffer
    decreases |arrivals|
  {
    if !Expires(now, expiry, arrivals) {
      var f := arrivals[0].frame;
      assert !FinalInTime(c, now, expiry, arrivals, 0);
      if f.AckFrame? || PendingBytes(c.buffer, f) {
        forall i | 0 <= i < |arrivals[1..]|
          ensures !FinalInTime(c, Later(now, arrivals[0].at), NextExpiry(c, now, expiry, arrivals), arrivals[1..], i)
        {
          FinalInTimeRest(c, now, expiry, arrivals, i);
          assert !FinalInTime(c, now, expiry, arrivals, i + 1);
        }
        NoFinalTaken(c, Later(now, arrivals[0].at), NextExpiry(c, now, expiry, arrivals), buffer, arrivals[1..]);
      }
    }
  }

  /** The acknowledgement that a request is answered by is frame `i`, and the final response frame `k`. */
  predicate AnsweredInTime(c: Settings, now: nat, arrivals: seq<Arrival>, i: nat, k: nat) {
    && FirstAck(now, now + 2000, arrivals, i) && arrivals[i].frame == AckFrame(0x8002, 0x00)
    && var t := HandledAt(now, arrivals, i);
       FinalInTime(c, t, t + c.p2, arrivals[i + 1..], k)
  }

  /**
   * A request returns a response exactly if its first acknowledgement is positive and handled within 2000
   * milliseconds, and a final response follows it in time; it is then that response.
   */
  lemma {:induction false} ExchangeExactly(c: Settings, now: nat, buffer: seq<byte>, arrivals: seq<Arrival>)
    ensures var a := Exchange(c, now, buffer, arrivals);
            && (a.outcome == Response <==> exists i: nat, k: nat :: AnsweredInTime(c, now, arrivals, i, k))
            && (forall i: nat, k: nat :: AnsweredInTime(c, now, arrivals, i, k) ==>
                  a.buffer == arrivals[i + 1..][k].frame.uds)
  {
    forall i: nat, k: nat | AnsweredInTime(c, now, arrivals, i, k)
      ensures Exchange(c, now, buffer, arrivals).outcome == Response
      ensures Exchange(c, now, buffer, arrivals).buffer == arrivals[i + 1..][k].frame.uds
    {
      AnsweredReturns(c, now, buffer, arrivals, i, k);
    }
    if Exchange(c, now, buffer, arrivals).outcome == Response {
      ReturnedAnswers(c, now, buffer, arrivals);
    }
  }

  lemma AnsweredReturns(c: Settings, now: nat, buffer: seq<byte>, arrivals: seq<Arrival>, i: nat, k: nat)
    requires AnsweredInTime(c, now, arrivals, i, k)
    ensures var a := Exchange(c, now, buffer, arrivals);
            a.outcome == Response && a.buffer == arrivals[i + 1..][k].frame.uds
  {
    var t := HandledAt(now, arrivals, i);
    AckTaken(now, now + ACK_TIMEOUT, buffer, arrivals, i);
    FinalTaken(c, t, t + c.p2, buffer, arrivals[i + 1..], k);
  }

  lemma ReturnedAnswers(c: Settings, now: nat, buffer: seq<byte>, arrivals: seq<Arrival>)
    requires Exchange(c, now, buffer, arrivals).outcome == Response
    ensures exists i: nat, k: nat :: AnsweredInTime(c, now, arrivals, i, k)
  {
    AckExists(now, now + ACK_TIMEOUT, buffer, arrivals);
    var i: nat :| FirstAck(now, now + ACK_TIMEOUT, arrivals, i);
    AckTaken(now, now + ACK_TIMEOUT, buffer, arrivals, i);
    var t := HandledAt(now, arrivals, i);
    FinalExists(c, t, t + c.p2, buffer, arrivals[i + 1..]);
    var k: nat :| FinalInTime(c, t, t + c.p2, arrivals[i + 1..], k);
    assert AnsweredInTime(c, now, arrivals, i, k);
  }

  lemma AckExists(now: nat, expiry: nat, buffer: seq<byte>, arrivals: seq<Arrival>)
    requires now <= expiry && AwaitAck(now, expiry, buffer, arrivals).outcome != Failed(AckTimeout)
    ensures exists i: nat :: FirstAck(now, expiry, arrivals, i)
  {
    if forall i :: 0 <= i < |arrivals| ==> !FirstAck(now, expiry, arrivals, i) {
      NoAckTaken(now, expiry, buffer, arrivals);
    }
  }

  lemma FinalExists(c: Settings, now: nat, expiry: nat, buffer: seq<byte>, arrivals: seq<Arrival>)
    requires Await(c, now, expiry, buffer, arrivals).outcome == Response
    ensures exists i: nat :: FinalInTime(c, now, expiry, arrivals, i)
  {
    if forall i :: 0 <= i < |arrivals| ==> !FinalInTime(c, now, expiry, arrivals, i) {
      NoFinalTaken(c, now, expiry, buffer, arrivals);
    }
  }

  /** The wait lasts at most one window, and one window of P2* more for every pending answer. */
  lemma {:induction false} AwaitBound(c: Settings, now: nat, expiry: nat, buffer: seq<byte>, arrivals: seq<Arrival>)
    requires now <= expiry
    ensures var a := Await(c, now, expiry, buffer, arrivals);
            now <= a.end <= expiry + a.pending * c.p2Star
    decreases |arrivals|
  {
    if !Expires(now, expiry, arrivals) {
      var t, rest, f := Later(now, arrivals[0].at), arrivals[1..], arrivals[0].frame;
      if f.AckFrame? {
        AwaitBound(c, t, expiry, buffer, rest);
      } else if !IsFinal(c.buffer, f.uds) && KeepsWaiting(c.buffer, f.uds) {
        AwaitBound(c, t, t + c.p2Star, buffer, rest);
        var b := Await(c, t, t + c.p2Star, buffer, rest);
        assert (b.pending + 1) * c.p2Star == b.pending * c.p2Star + c.p2Star;
      }
    }
  }

  lemma {:induction false} AwaitAckBound(now: nat, expiry: nat, buffer: seq<byte>, arrivals: seq<Arrival>)
    requires now <= expiry
    ensures now <= AwaitAck(now, expiry, buffer, arrivals).end <= expiry
    ensures AwaitAck(now, expiry, buffer, arrivals).pending == 0
    decreases |arrivals|
  {
    if !Expires(now, expiry, arrivals) && arrivals[0].frame.ResponseFrame? {
      AwaitAckBound(Later(now, arrivals[0].at), expiry, buffer, arrivals[1..]);
    }
  }

  /** With `k` accepted pending answers a request lasts at most 2000 + P2 + k * P2* milliseconds. */
  lemma ExchangeBound(c: Settings, now: nat, buffer: seq<byte>, arrivals: seq<Arrival>)
    ensures var a := Exchange(c, now, buffer, arrivals);
            now <= a.end <= now + 2000 + c.p2 + a.pending * c.p2Star
  {
    AwaitAckBound(now, now + ACK_TIMEOUT, buffer, arrivals);
    var ack := AwaitAck(now, now + ACK_TIMEOUT, buffer, arrivals);
    AwaitBound(c, ack.end, ack.end + c.p2, buffer, ack.rest);
  }

  /** How a request leaves the channel: waiting only after a response timeout. */
  lemma ExchangeChannel(c: Settings, now: nat, buffer: seq<byte>, arrivals: seq<Arrival>)
    ensures var a := Exchange(c, now, buffer, arrivals);
            && a.channel in {ChannelIdle, WaitForResponse}
            && (a.channel == WaitForResponse ==> a.outcome == Failed(ResponseTimeout))
            && (a.outcome != Response ==> a.buffer == buffer)
  {
    AckChannel(now, now + ACK_TIMEOUT, buffer, arrivals);
    var ack := AwaitAck(now, now + ACK_TIMEOUT, buffer, arrivals);
    AwaitChannel(c, ack.end, ack.end + c.p2, buffer, ack.rest);
  }

  lemma {:induction false} AckChannel(now: nat, expiry: nat, buffer: seq<byte>, arrivals: seq<Arrival>)
    ensures var a := AwaitAck(now, expiry, buffer, arrivals);
            && a.buffer == buffer
            && a.outcome in {Response, Failed(AckTimeout), Failed(NegAckReceived)}
            && a.channel == if a.outcome == Response then WaitForResponse else ChannelIdle
    decreases |arrivals|
  {
    if !Expires(now, expiry, arrivals) && arrivals[0].frame.ResponseFrame? {
      AckChannel(Later(now, arrivals[0].at), expiry, buffer, arrivals[1..]);
    }
  }

  lemma {:induction false} AwaitChannel(c: Settings, now: nat, expiry: nat, buffer: seq<byte>, arrivals: seq<Arrival>)
    ensures var a := Await(c, now, expiry, buffer, arrivals);
            && a.outcome in {Response, Failed(ResponseTimeout)}
            && a.channel in {ChannelIdle, WaitForResponse}
            && (a.outcome == Response ==> a.channel == ChannelIdle)
            && (a.outcome != Response ==> a.buffer == buffer)
    decreases |arrivals|
  {
    if !Expires(now, expiry, arrivals) {
      var t, rest, f := Later(now, arrivals[0].at), arrivals[1..], arrivals[0].frame;
      if f.AckFrame? {
        AwaitChannel(c, t, expiry, buffer, rest);
      } else if !IsFinal(c.buffer, f.uds) && KeepsWaiting(c.buffer, f.uds) {
        AwaitChannel(c, t, t + c.p2Star, buffer, rest);
      }
    }
  }
}
