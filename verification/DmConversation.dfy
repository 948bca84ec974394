/**
 * The conversation and its channel as the source writes them: state fields, timer flags and a shared
 * receive buffer, updated in place. Received frames are handled while the user thread is blocked in
 * a timer, at the time they arrive. The result is compared with `ResponseWindow`.
 */
module DmConversation {
  import opened Bytes
  import opened DoipMessage
  import opened DiagnosticExchange
  import opened ExchangeSafety
  import opened ResponseWindow
  import CoarseExchange

  datatype TimerState = CancelRequested | Timeout

  datatype IndicationResult = IndicationOk | IndicationOverflow | IndicationPending | IndicationNOk

  /** The argument of the application: a null pointer or a message. */
  datatype UdsRequest = NoMessage | UdsMessage(payload: seq<byte>)

  /** Only failures are converted; success never reaches this function. */
  function ConvertResponseType(r: TransmissionResult): DiagError {
    match r
    case TransmitFailed => RequestSendFailed
    case NoTransmitAckReceived => AckTimeout
    case NegTransmitAckReceived => NegAckReceived
    case TransmitBusy => BusyProcessing
    case TransmitOk => GenericFailure
  }

  class DmConversation {
    const settings: Settings
    var targetAddress: u16
    // channel
    var channel: ChannelState
    var ackTimer: bool
    var wire: seq<seq<byte>>
    // conversation
    var conversation: ConversationState
    var responseTimer: bool
    var buffer: seq<byte>
    // environment
    var now: nat
    var arrivals: seq<Arrival>
    ghost var starWaits: nat

    /** The shared state, as the machine of single steps has it between two frames. */
    ghost function Shared(): State
      reads this
    {
      State(channel, conversation, ackTimer, responseTimer, buffer, Ready, Listening)
    }

    constructor (settings: Settings)
      ensures this.settings == settings
      ensures channel == ChannelIdle && conversation == ConversationIdle && buffer == [] && wire == []
    {
      this.settings := settings;
      targetAddress, channel, ackTimer, wire := 0, ChannelIdle, false, [];
      conversation, responseTimer, buffer := ConversationIdle, false, [];
      now, arrivals, starWaits := 0, [], 0;
    }

    // Reader side: one frame.

    method IndicateMessage(uds: seq<byte>) returns (r: IndicationResult)
      modifies this`conversation, this`buffer, this`responseTimer
      ensures r == if uds == [] then IndicationNOk
                   else if |uds| > settings.buffer.rxBufferSize then IndicationOverflow
                   else if IsPending(uds) then IndicationPending else IndicationOk
      ensures r == IndicationPending <==>
                3 <= |uds| <= settings.buffer.rxBufferSize && uds[0] == 0x7F && uds[2] == 0x78
      ensures r == IndicationOk ==> |buffer| == |uds|
      ensures r != IndicationOk ==> buffer == old(buffer)
      ensures conversation == if r == IndicationOk then ReceivedFinalRes
                              else if r == IndicationPending then ReceivedPendingRes
                              else old(conversation)
      ensures responseTimer == (old(responseTimer) && r != IndicationOk && r != IndicationPending)
    {
      r := IndicationNOk;
      if uds != [] {
        if |uds| <= settings.buffer.rxBufferSize {
          if IsPending(uds) {
            r := IndicationPending;
            conversation := ReceivedPendingRes;
          } else {
            buffer := Resize(buffer, |uds|);
            r := IndicationOk;
            conversation := ReceivedFinalRes;
          }
          responseTimer := false;
        } else {
          r := IndicationOverflow;
        }
      }
    }

    /** Copies a received payload over the buffer of the same length. */
    method CopyToBuffer(uds: seq<byte>)
      requires |buffer| == |uds|
      modifies this`buffer
      ensures buffer == uds
    {
      var i := 0;
      while i < |uds|
        invariant 0 <= i <= |uds| == |buffer|
        invariant forall k :: 0 <= k < i ==> buffer[k] == uds[k]
      {
        buffer := buffer[i := uds[i]];
        i := i + 1;
      }
    }

    method HandleMessage()
      modifies this`conversation
      ensures conversation == DiagSuccess
    {
      conversation := DiagSuccess;
    }

    /** The same outcome as the reader's steps taken without interruption. */
    method ProcessDiagnosticMessageResponse(uds: seq<byte>)
      modifies this`channel, this`conversation, this`buffer, this`responseTimer
      ensures old(channel) != WaitForResponse ==>
                channel == old(channel) && conversation == old(conversation)
                && buffer == old(buffer) && responseTimer == old(responseTimer)
      ensures old(channel) == WaitForResponse && IsFinal(settings.buffer, uds) ==>
                channel == ChannelIdle && conversation == DiagSuccess && buffer == uds && !responseTimer
      ensures old(channel) == WaitForResponse && KeepsWaiting(settings.buffer, uds) ==>
                channel == WaitForResponse && conversation == ReceivedPendingRes
                && buffer == old(buffer) && !responseTimer
      ensures old(channel) == WaitForResponse && !IsFinal(settings.buffer, uds)
              && !KeepsWaiting(settings.buffer, uds) ==>
                channel == ChannelIdle && conversation == old(conversation)
                && buffer == old(buffer) && responseTimer == old(responseTimer)
    {
      if channel == WaitForResponse {
        var r := IndicateMessage(uds);
        if r != IndicationPending {
          if r == IndicationOk {
            CopyToBuffer(uds);
            HandleMessage();
          }
          channel := ChannelIdle;
        }
      }
    }

    method ProcessDiagnosticAckMessageResponse(payloadType: u16, code: byte)
      modifies this`channel, this`ackTimer
      ensures old(channel) == WaitForAck ==> channel == AckState(payloadType, code) && !ackTimer
      ensures old(channel) == WaitForAck ==>
                channel == if payloadType == 0x8002 && code == 0x00 then PositiveAckReceived else NegativeAckReceived
      ensures old(channel) != WaitForAck ==> channel == old(channel) && ackTimer == old(ackTimer)
    {
      var finalState := NegativeAckReceived;
      if channel == WaitForAck {
        if payloadType == DIAG_POSITIVE_ACK {
          if code == 0x00 { finalState := PositiveAckReceived; }
        }
        channel := finalState;
        ackTimer := false;
      }
    }

    /** One frame has the effect that `HandleEffect` shows of the reader's steps on it taken together. */
    method HandleFrame(f: Frame)
      modifies this`channel, this`ackTimer, this`conversation, this`buffer, this`responseTimer
      ensures Shared() == CoarseExchange.Handled(settings.buffer, old(Shared()), f)
    {
      match f {
        case AckFrame(payloadType, code) => ProcessDiagnosticAckMessageResponse(payloadType, code);
        case ResponseFrame(uds) => ProcessDiagnosticMessageResponse(uds);
      }
    }

    // User side: blocking on a timer, frames being handled meanwhile.

    /** The ack timer. Its callbacks run in `HandleDiagnosticRequest`. */
    method StartAckTimer(timeout: nat) returns (timerState: TimerState)
      requires channel == WaitForAck
      modifies this`channel, this`ackTimer, this`conversation, this`buffer, this`responseTimer, this`now, this`arrivals
      ensures conversation == old(conversation) && buffer == old(buffer)
      ensures var a := AwaitAck(old(now), old(now) + timeout, old(buffer), old(arrivals));
              && now == a.end && arrivals == a.rest
              && (timerState == Timeout <==> a.outcome == Failed(AckTimeout))
              && (timerState == CancelRequested ==>
                    channel == if a.outcome == Response then PositiveAckReceived else NegativeAckReceived)
    {
      ackTimer := true;
      var expiry := now + timeout;
      while true
        invariant now <= expiry
        invariant channel == WaitForAck ==> ackTimer
        invariant conversation == old(conversation) && buffer == old(buffer)
        invariant channel == WaitForAck ==>
                    AwaitAck(old(now), expiry, buffer, old(arrivals)) == AwaitAck(now, expiry, buffer, arrivals)
        invariant channel != WaitForAck ==>
                    var a := AwaitAck(old(now), expiry, buffer, old(arrivals));
                    && !ackTimer && now < expiry && now == a.end && arrivals == a.rest
                    && a.outcome == (if channel == PositiveAckReceived then Response else Failed(NegAckReceived))
                    && channel in {PositiveAckReceived, NegativeAckReceived}
        decreases |arrivals|, expiry - now
      {
        if now >= expiry { return Timeout; }
        if !ackTimer { return CancelRequested; }
        if arrivals == [] || Later(now, arrivals[0].at) >= expiry {
          now := expiry;
        } else {
          now := Later(now, arrivals[0].at);
          var f := arrivals[0].frame;
          arrivals := arrivals[1..];
          HandleFrame(f);
        }
      }
    }

    /** The conversation's timer. Its callbacks run in `SendDiagnosticRequest`. */
    method StartResponseTimer(timeout: nat) returns (timerState: TimerState)
      requires channel == WaitForResponse
      requires conversation == DiagWaitForRes || conversation == StartP2StarTimer
      modifies this`channel, this`ackTimer, this`conversation, this`buffer, this`responseTimer, this`now, this`arrivals
      ensures var a := Await(settings, old(now), old(now) + timeout, old(buffer), old(arrivals));
              && |arrivals| <= |old(arrivals)|
              && if timerState == Timeout then
                && conversation == old(conversation) && buffer == old(buffer)
                && a == Answer(Failed(ResponseTimeout), now, arrivals, channel, buffer, 0)
              else if conversation == DiagSuccess then
                a == Answer(Response, now, arrivals, channel, buffer, 0)
              else
                && conversation == ReceivedPendingRes && channel == WaitForResponse
                && |arrivals| < |old(arrivals)|
                && a == OneMore(Await(settings, now, now + settings.p2Star, buffer, arrivals))
    {
      responseTimer := true;
      var expiry := now + timeout;
      ghost var a := Await(settings, now, expiry, buffer, arrivals);
      while true
        invariant now <= expiry && |arrivals| <= |old(arrivals)|
        invariant responseTimer && channel == WaitForResponse ==>
                    && conversation == old(conversation) && buffer == old(buffer)
                    && a == Await(settings, now, expiry, buffer, arrivals)
        invariant responseTimer && channel != WaitForResponse ==>
                    && conversation == old(conversation) && buffer == old(buffer) && channel == ChannelIdle
                    && a == Answer(Failed(ResponseTimeout), expiry, Ignore(now, expiry, arrivals), ChannelIdle, buffer, 0)
        invariant !responseTimer ==> now < expiry
        invariant !responseTimer ==>
                    || (conversation == DiagSuccess && a == Answer(Response, now, arrivals, channel, buffer, 0))
                    || (&& conversation == ReceivedPendingRes && channel == WaitForResponse
                        && |arrivals| < |old(arrivals)|
                        && a == OneMore(Await(settings, now, now + settings.p2Star, buffer, arrivals)))
        decreases |arrivals|, expiry - now
      {
        if now >= expiry { return Timeout; }
        if !responseTimer { return CancelRequested; }
        if arrivals == [] || Later(now, arrivals[0].at) >= expiry {
          now := expiry;
        } else {
          now := Later(now, arrivals[0].at);
          var f := arrivals[0].frame;
          arrivals := arrivals[1..];
          HandleFrame(f);
        }
      }
    }

    // Calls of the user thread.

    method HandleDiagnosticRequest(payload: seq<byte>, writeOk: bool) returns (result: TransmissionResult)
      modifies this`wire, this`channel, this`ackTimer, this`conversation, this`buffer, this`responseTimer, this`now, this`arrivals
      ensures conversation == old(conversation) && buffer == old(buffer)
      ensures old(channel) != ChannelIdle ==>
                && result == TransmitBusy
                && channel == old(channel) && wire == old(wire) && now == old(now) && arrivals == old(arrivals)
      ensures old(channel) == ChannelIdle ==>
                && |wire| == |old(wire)| + 1 && old(wire) <= wire
                && IsDiagnosticRequest(wire[|old(wire)|], settings.sourceAddress, targetAddress, payload)
      ensures old(channel) == ChannelIdle && !writeOk ==>
                && result == TransmitFailed && channel == ChannelIdle
                && now == old(now) && arrivals == old(arrivals)
      ensures old(channel) == ChannelIdle && writeOk ==>
                var a := AwaitAck(old(now), old(now) + ACK_TIMEOUT, buffer, old(arrivals));
                && now == a.end && arrivals == a.rest
                && result == (if a.outcome == Response then TransmitOk
                              else if a.outcome == Failed(AckTimeout) then NoTransmitAckReceived
                              else NegTransmitAckReceived)
                && channel == if result == TransmitOk then WaitForResponse else ChannelIdle
      ensures result == TransmitOk <==>
                && old(channel) == ChannelIdle && writeOk
                && exists i: nat :: FirstAck(old(now), old(now) + 2000, old(arrivals), i)
                                    && old(arrivals)[i].frame == AckFrame(0x8002, 0x00)
    {
      AckTakenExactly(now, now + ACK_TIMEOUT, buffer, arrivals);
      result := TransmitFailed;
      if channel == ChannelIdle {
        var frame := ComposeDiagnosticRequest(settings.sourceAddress, targetAddress, payload);
        wire := wire + [frame];
        if writeOk {
          channel := WaitForAck;
          var timerState := StartAckTimer(ACK_TIMEOUT);
          if timerState == Timeout {
            result := NoTransmitAckReceived;
            channel := ChannelIdle;
          } else if channel == PositiveAckReceived {
            channel := WaitForResponse;
            result := TransmitOk;
          } else {
            result := NegTransmitAckReceived;
            channel := ChannelIdle;
          }
        } else {
          channel := ChannelIdle;
        }
      } else {
        result := TransmitBusy;
      }
    }

    /** The routing gate of the channel; `routed` is what the routing activation handler reports. */
    method Transmit(payload: seq<byte>, routed: bool, writeOk: bool) returns (result: TransmissionResult)
      modifies this`wire, this`channel, this`ackTimer, this`conversation, this`buffer, this`responseTimer, this`now, this`arrivals
      ensures conversation == old(conversation) && buffer == old(buffer)
      ensures !routed || old(channel) != ChannelIdle ==>
                && result == (if routed then TransmitBusy else TransmitFailed)
                && channel == old(channel) && wire == old(wire) && now == old(now) && arrivals == old(arrivals)
      ensures routed && old(channel) == ChannelIdle ==>
                && |wire| == |old(wire)| + 1 && old(wire) <= wire
                && IsDiagnosticRequest(wire[|old(wire)|], settings.sourceAddress, targetAddress, payload)
      ensures routed && old(channel) == ChannelIdle && !writeOk ==>
                && result == TransmitFailed && channel == ChannelIdle
                && now == old(now) && arrivals == old(arrivals)
      ensures routed && old(channel) == ChannelIdle && writeOk ==>
                var a := AwaitAck(old(now), old(now) + ACK_TIMEOUT, buffer, old(arrivals));
                && now == a.end && arrivals == a.rest
                && result == (if a.outcome == Response then TransmitOk
                              else if a.outcome == Failed(AckTimeout) then NoTransmitAckReceived
                              else NegTransmitAckReceived)
                && channel == if result == TransmitOk then WaitForResponse else ChannelIdle
    {
      result := TransmitFailed;
      if routed {
        result := HandleDiagnosticRequest(payload, writeOk);
      }
    }

    /** Waits for P2 and then for P2* as often as a pending answer arrives, until the state is idle. */
    method AwaitFinalResponse() returns (result: Outcome)
      requires channel == WaitForResponse
      modifies this`channel, this`ackTimer, this`conversation, this`buffer, this`responseTimer, this`now, this`arrivals, this`starWaits
      ensures conversation == ConversationIdle
      ensures starWaits >= old(starWaits)
      ensures Await(settings, old(now), old(now) + settings.p2, old(buffer), old(arrivals))
              == Answer(result, now, arrivals, channel, buffer, starWaits - old(starWaits))
    {
      result := Failed(RequestSendFailed);
      ghost var total := Await(settings, now, now + settings.p2, buffer, arrivals);
      ghost var k := 0;
      conversation := DiagWaitForRes;
      var timerState := StartResponseTimer(settings.p2);
      if timerState == Timeout {
        result := Failed(ResponseTimeout);
        conversation := ConversationIdle;
      } else {
        if conversation == ReceivedFinalRes {
        } else if conversation == ReceivedPendingRes {
          conversation := StartP2StarTimer;
          k := 1;
        }
      }
      while conversation != ConversationIdle
        invariant conversation in {ConversationIdle, StartP2StarTimer, DiagSuccess}
        invariant starWaits == old(starWaits) + if conversation == StartP2StarTimer then k - 1 else k
        invariant conversation == StartP2StarTimer ==>
                    && channel == WaitForResponse && k > 0
                    && total == Plus(Await(settings, now, now + settings.p2Star, buffer, arrivals), k)
        invariant conversation == DiagSuccess ==>
                    total == Answer(Response, now, arrivals, channel, buffer, k)
        invariant conversation == ConversationIdle ==>
                    total == Answer(result, now, arrivals, channel, buffer, k)
        decreases |arrivals|, if conversation == StartP2StarTimer then 2 else if conversation == DiagSuccess then 1 else 0
      {
        match conversation {
          case ReceivedPendingRes => assert false; // handled by the cancel callback
          case ReceivedFinalRes =>
          case StartP2StarTimer =>
            timerState := StartResponseTimer(settings.p2Star);
            starWaits := starWaits + 1;
            if timerState == Timeout {
              result := Failed(ResponseTimeout);
              conversation := ConversationIdle;
            } else {
              if conversation == ReceivedFinalRes {
              } else if conversation == ReceivedPendingRes {
                conversation := StartP2StarTimer;
                k := k + 1;
              }
            }
          case DiagSuccess =>
            result := Response;
            conversation := ConversationIdle;
          case _ =>
        }
      }
    }

    /**
     * One request of the application. On an idle, activated channel with a working socket the call
     * gives exactly the answer of `Exchange`, ends, and waits for P2* once per pending answer.
     */
    method SendDiagnosticRequest(request: UdsRequest, routed: bool, writeOk: bool) returns (outcome: Outcome)
      modifies this`wire, this`channel, this`ackTimer, this`conversation, this`buffer, this`responseTimer, this`now, this`arrivals, this`starWaits
      ensures conversation == ConversationIdle || conversation == old(conversation)
      ensures request.NoMessage? || !routed || old(channel) != ChannelIdle ==>
                && outcome == Failed(if request.NoMessage? then InvalidParameter
                                     else if !routed then RequestSendFailed
                                     else BusyProcessing)
                && channel == old(channel) && wire == old(wire) && buffer == old(buffer)
                && now == old(now) && arrivals == old(arrivals) && starWaits == old(starWaits)
      ensures request.UdsMessage? && routed && old(channel) == ChannelIdle ==>
                && |wire| == |old(wire)| + 1 && old(wire) <= wire
                && IsDiagnosticRequest(wire[|old(wire)|], settings.sourceAddress, targetAddress, request.payload)
      ensures request.UdsMessage? && routed && old(channel) == ChannelIdle && !writeOk ==>
                && outcome == Failed(RequestSendFailed) && channel == ChannelIdle && buffer == old(buffer)
                && now == old(now) && arrivals == old(arrivals) && starWaits == old(starWaits)
      ensures request.UdsMessage? && routed && old(channel) == ChannelIdle && writeOk ==>
                && starWaits >= old(starWaits)
                && Exchange(settings, old(now), old(buffer), old(arrivals))
                   == Answer(outcome, now, arrivals, channel, buffer, starWaits - old(starWaits))
                && now - old(now) <= 2000 + settings.p2 + (starWaits - old(starWaits)) * settings.p2Star
    {
      outcome := Failed(RequestSendFailed);
      if request.UdsMessage? {
        ghost var a := Exchange(settings, now, buffer, arrivals);
        ExchangeBound(settings, now, buffer, arrivals);
        AckChannel(now, now + ACK_TIMEOUT, buffer, arrivals);
        AwaitAckBound(now, now + ACK_TIMEOUT, buffer, arrivals);
        var result := Transmit(request.payload, routed, writeOk);
        if result == TransmitOk {
          outcome := AwaitFinalResponse();
        } else {
          outcome := Failed(ConvertResponseType(result));
        }
      } else {
        outcome := Failed(InvalidParameter);
      }
    }
  }

  function Plus(a: Answer, k: nat): Answer {
    a.(pending := a.pending + k)
  }
}
