/**
 * One diagnostic conversation over its TCP channel, as two threads that interleave freely: the user
 * thread inside `SendDiagnosticRequest` and the reader thread handling received frames. Every state
 * transition, timer start, cancellation, buffer resize, copied byte and state query is one step.
 * There is no lock around more than one of them.
 */
module DiagnosticExchange {
  import opened Bytes
  import opened DoipMessage

  /** The limit on the length of a response, from the configuration of the conversation. */
  datatype Config = Config(rxBufferSize: nat)

  /** States of the channel that the code ever enters. */
  datatype ChannelState =
    ChannelIdle | WaitForAck | PositiveAckReceived | NegativeAckReceived | WaitForResponse

  /** States of the conversation. */
  datatype ConversationState =
    ConversationIdle | DiagWaitForRes | StartP2StarTimer | ReceivedPendingRes | ReceivedFinalRes | DiagSuccess

  datatype DiagError =
    | InvalidParameter | RequestSendFailed | AckTimeout | NegAckReceived | BusyProcessing
    | GenericFailure | ResponseTimeout

  /** What the channel reports of a transmission. */
  datatype TransmissionResult =
    TransmitOk | TransmitFailed | NoTransmitAckReceived | NegTransmitAckReceived | TransmitBusy

  /** A response carries no bytes: it refers to the receive buffer of the conversation. */
  datatype Outcome = Failed(error: DiagError) | Response

  /** The frames that concern the exchange, after the header check. */
  datatype Frame =
    | AckFrame(payloadType: u16, code: byte)
    | ResponseFrame(uds: seq<byte>)

  /** Which of the two response windows a timer start opens. */
  datatype Window = P2 | P2Star

  /** The lengths of the windows, in milliseconds. */
  datatype Windows = Windows(p2: nat, p2Star: nat)

  /** Where the user thread stands: the step it takes next. */
  datatype User =
    | Ready                                      // no call made yet
    | Returned(outcome: Outcome)                 // the last call is over
    | CheckIdle                                  // query whether the channel is free
    | WriteRequest                               // hand the request to the socket
    | WriteFailed                                // back to idle after a failed write
    | ToWaitForAck
    | StartAckTimer
    | BlockedOnAck
    | AckTimedOut                                // timeout callback of the ack timer
    | AckCancelled                               // cancel callback of the ack timer: query the channel
    | AckRefused                                 // back to idle, anything but a positive ack seen
    | ToWaitForResponse                          // positive ack seen
    | ToDiagWaitForRes
    | StartResponseTimer(result: Outcome, window: Window)
    | BlockedOnResponse(result: Outcome)
    | ResponseTimedOut(result: Outcome)          // timeout callback
    | QueryFinal(result: Outcome)                // cancel callback, first query
    | QueryPending(result: Outcome)              // cancel callback, second query
    | ToStartP2Star(result: Outcome)
    | LoopTest(result: Outcome)                  // query of the loop condition
    | LoopSwitch(result: Outcome)                // query of the switch
    | EmplaceValue(result: Outcome)
    | ToConversationIdle(result: Outcome)

  /** Where the reader thread stands. */
  datatype Reader =
    | Listening
    | CheckWaitForAck(payloadType: u16, code: byte)
    | WriteAckState(state: ChannelState)
    | CancelAckTimer
    | CheckWaitForResponse(uds: seq<byte>)
    | Indicate(uds: seq<byte>)
    | WritePending
    | CancelAfterPending
    | ResizeBuffer(uds: seq<byte>)
    | WriteFinal(uds: seq<byte>)
    | CancelAfterFinal(uds: seq<byte>)
    | CopyBytes(uds: seq<byte>, copied: nat)
    | WriteSuccess(uds: seq<byte>)
    | ReleaseChannel                             // back to idle, the response is consumed

  /** The shared state and the two threads. Each timer is its `start_running_` flag. */
  datatype State = State(
    channel: ChannelState,
    conversation: ConversationState,
    ackTimer: bool,
    responseTimer: bool,
    buffer: seq<byte>,
    user: User,
    reader: Reader)

  const Initial := State(ChannelIdle, ConversationIdle, false, false, [], Ready, Listening)

  datatype Event =
    | Call(validMessage: bool, routed: bool)     // the application calls SendDiagnosticRequest
    | WriteDone(ok: bool)                        // the socket write ends
    | UserStep
    | TimerExpires                               // the timer the user thread is blocked on expires
    | Arrive(frame: Frame)                       // the reader thread receives a frame
    | ReaderStep
    | Reset                                      // the channel handler is reset, both threads being idle

  /** 7F xx 78, the response-pending answer. */
  predicate IsPending(uds: seq<byte>) {
    |uds| >= 3 && uds[0] == 0x7F && uds[2] == 0x78
  }

  /** The response is neither refused by the buffer check nor a pending answer. */
  predicate IsFinal(c: Config, uds: seq<byte>) {
    0 < |uds| <= c.rxBufferSize && !IsPending(uds)
  }

  /** The three classes of responses, by their bytes. */
  lemma ResponseClasses(c: Config, uds: seq<byte>)
    ensures IsPending(uds) <==> |uds| >= 3 && uds[0] == 0x7F && uds[2] == 0x78
    ensures IsPending(uds) <==> exists sid: byte :: [0x7F, sid, 0x78] <= uds
    ensures IsFinal(c, uds) <==>
              0 < |uds| <= c.rxBufferSize && !(|uds| >= 3 && uds[0] == 0x7F && uds[2] == 0x78)
  {
    if IsPending(uds) {
      assert [0x7F, uds[1], 0x78] <= uds;
    }
  }

  /** The only acknowledgement that lets a request pass. */
  lemma AckStateExactly(payloadType: u16, code: byte)
    ensures AckState(payloadType, code)
            == if AckFrame(payloadType, code) == AckFrame(0x8002, 0x00) then PositiveAckReceived else NegativeAckReceived
  {
  }

  function Length(w: Windows, window: Window): nat {
    match window
    case P2 => w.p2
    case P2Star => w.p2Star
  }

  function AckState(payloadType: u16, code: byte): ChannelState {
    if payloadType == DIAG_POSITIVE_ACK && code == 0x00 then PositiveAckReceived else NegativeAckReceived
  }

  predicate InCall(u: User) {
    !u.Ready? && !u.Returned?
  }

  /** Both threads' steps. An event that is not enabled changes nothing. */
  function Next(c: Config, s: State, e: Event): State {
    match e
    case Call(valid, routed) =>
      if InCall(s.user) then s
      else if !valid then s.(user := Returned(Failed(InvalidParameter)))
      else if !routed then s.(user := Returned(Failed(RequestSendFailed)))
      else s.(user := CheckIdle)
    case WriteDone(ok) =>
      if s.user != WriteRequest then s else s.(user := if ok then ToWaitForAck else WriteFailed)
    case UserStep => NextUser(s)
    case TimerExpires =>
      (match s.user
       case BlockedOnAck => s.(user := AckTimedOut)
       case BlockedOnResponse(r) => s.(user := ResponseTimedOut(r))
       case _ => s)
    case Arrive(f) =>
      if s.reader != Listening then s
      else (match f
            case AckFrame(t, code) => s.(reader := CheckWaitForAck(t, code))
            case ResponseFrame(uds) => s.(reader := CheckWaitForResponse(uds)))
    case ReaderStep => NextReader(c, s)
    case Reset =>
      if InCall(s.user) || s.reader != Listening then s
      else s.(channel := ChannelIdle, ackTimer := false)
  }

  function NextUser(s: State): State {
    match s.user
    case CheckIdle =>
      s.(user := if s.channel == ChannelIdle then WriteRequest else Returned(Failed(BusyProcessing)))
    case WriteFailed => s.(channel := ChannelIdle, user := Returned(Failed(RequestSendFailed)))
    case ToWaitForAck => s.(channel := WaitForAck, user := StartAckTimer)
    case StartAckTimer => s.(ackTimer := true, user := BlockedOnAck)
    case BlockedOnAck => if s.ackTimer then s else s.(user := AckCancelled)
    case AckTimedOut => s.(channel := ChannelIdle, user := Returned(Failed(AckTimeout)))
    case AckCancelled =>
      s.(user := if s.channel == PositiveAckReceived then ToWaitForResponse else AckRefused)
    case AckRefused => s.(channel := ChannelIdle, user := Returned(Failed(NegAckReceived)))
    case ToWaitForResponse => s.(channel := WaitForResponse, user := ToDiagWaitForRes)
    case ToDiagWaitForRes =>
      s.(conversation := DiagWaitForRes, user := StartResponseTimer(Failed(RequestSendFailed), P2))
    case StartResponseTimer(r, _) => s.(responseTimer := true, user := BlockedOnResponse(r))
    case BlockedOnResponse(r) => if s.responseTimer then s else s.(user := QueryFinal(r))
    case ResponseTimedOut(r) =>
      s.(conversation := ConversationIdle, user := LoopTest(Failed(ResponseTimeout)))
    case QueryFinal(r) =>
      s.(user := if s.conversation == ReceivedFinalRes then LoopTest(r) else QueryPending(r))
    case QueryPending(r) =>
      s.(user := if s.conversation == ReceivedPendingRes then ToStartP2Star(r) else LoopTest(r))
    case ToStartP2Star(r) => s.(conversation := StartP2StarTimer, user := LoopTest(r))
    case LoopTest(r) =>
      s.(user := if s.conversation == ConversationIdle then Returned(r) else LoopSwitch(r))
    case LoopSwitch(r) =>
      (match s.conversation
       case ReceivedPendingRes => s.(user := ToStartP2Star(r))
       case StartP2StarTimer => s.(user := StartResponseTimer(r, P2Star))
       case DiagSuccess => s.(user := EmplaceValue(r))
       case _ => s.(user := LoopTest(r)))
    case EmplaceValue(r) => s.(user := ToConversationIdle(Response))
    case ToConversationIdle(r) => s.(conversation := ConversationIdle, user := LoopTest(r))
    case _ => s
  }

  function NextReader(c: Config, s: State): State {
    match s.reader
    case Listening => s
    case CheckWaitForAck(t, code) =>
      s.(reader := if s.channel == WaitForAck then WriteAckState(AckState(t, code)) else Listening)
    case WriteAckState(state) => s.(channel := state, reader := CancelAckTimer)
    case CancelAckTimer => s.(ackTimer := false, reader := Listening)
    case CheckWaitForResponse(uds) =>
      s.(reader := if s.channel == WaitForResponse then Indicate(uds) else Listening)
    case Indicate(uds) =>
      s.(reader := if uds == [] || |uds| > c.rxBufferSize then ReleaseChannel
                   else if IsPending(uds) then WritePending
                   else ResizeBuffer(uds))
    case WritePending => s.(conversation := ReceivedPendingRes, reader := CancelAfterPending)
    case CancelAfterPending => s.(responseTimer := false, reader := Listening)
    case ResizeBuffer(uds) => s.(buffer := Resize(s.buffer, |uds|), reader := WriteFinal(uds))
    case WriteFinal(uds) => s.(conversation := ReceivedFinalRes, reader := CancelAfterFinal(uds))
    case CancelAfterFinal(uds) => s.(responseTimer := false, reader := CopyBytes(uds, 0))
    case CopyBytes(uds, i) =>
      if i < |uds| && i < |s.buffer|
      then s.(buffer := s.buffer[i := uds[i]], reader := CopyBytes(uds, i + 1))
      else s.(reader := WriteSuccess(uds))
    case WriteSuccess(uds) => s.(conversation := DiagSuccess, reader := ReleaseChannel)
    case ReleaseChannel => s.(channel := ChannelIdle, reader := Listening)
  }

  /** The state after a run, from the start of the conversation. */
  function Exec(c: Config, es: seq<Event>): State {
    if es == [] then Initial else Next(c, Exec(c, es[..|es| - 1]), es[|es| - 1])
  }

  // Marks on a run.

  /** Event `i` is the step by which a call moves the channel to waiting for the response. */
  predicate EntersWait(c: Config, es: seq<Event>, i: nat)
    requires i < |es|
  {
    es[i] == UserStep && Exec(c, es[..i]).user == ToWaitForResponse
  }

  /** Event `i` is the step by which the reader finds the channel waiting and accepts `uds`. */
  predicate Accepts(c: Config, es: seq<Event>, i: nat, uds: seq<byte>)
    requires i < |es|
  {
    es[i] == ReaderStep
    && var s := Exec(c, es[..i]); s.reader == CheckWaitForResponse(uds) && s.channel == WaitForResponse
  }

  /** Event `i` is the step by which a call moves the channel to waiting for its acknowledgement. */
  predicate AwaitsAck(c: Config, es: seq<Event>, i: nat)
    requires i < |es|
  {
    es[i] == UserStep && Exec(c, es[..i]).user == ToWaitForAck
  }

  /** Event `i` is the step by which the reader accepts a positive acknowledgement. */
  predicate AcceptsPositiveAck(c: Config, es: seq<Event>, i: nat)
    requires i < |es|
  {
    es[i] == ReaderStep
    && var s := Exec(c, es[..i]);
       s.reader == CheckWaitForAck(0x8002, 0x00) && s.channel == WaitForAck
  }

  /** Event `i` is a call that was actually begun. */
  predicate BeginsCall(c: Config, es: seq<Event>, i: nat)
    requires i < |es|
  {
    es[i] == Call(true, true) && !InCall(Exec(c, es[..i]).user)
  }

  /** Event `i` is the step by which the reader consumes a response that is not pending. */
  predicate Consumes(c: Config, es: seq<Event>, i: nat)
    requires i < |es|
  {
    es[i] == ReaderStep && Exec(c, es[..i]).reader == ReleaseChannel
  }

  /** Event `i` is a reset that gives up on an outstanding response. */
  predicate Abandons(c: Config, es: seq<Event>, i: nat)
    requires i < |es|
  {
    es[i] == Reset
    && var s := Exec(c, es[..i]);
       !InCall(s.user) && s.reader == Listening && s.channel == WaitForResponse
  }

  /** Event `i` puts a request on the wire. */
  predicate Writes(c: Config, es: seq<Event>, i: nat)
    requires i < |es|
  {
    es[i].WriteDone? && Exec(c, es[..i]).user == WriteRequest
  }
}
