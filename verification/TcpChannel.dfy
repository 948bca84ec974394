/**
 * The TCP channel: the client's connection flag, the routing activation and diagnostic message
 * handlers, and the gate between them. The handling of one received frame is a single step; a blocking
 * call is given the frames that arrive at each of its program points, so its contract holds for every
 * interleaving of frames with the write, the transition, the timer start and the callbacks.
 */
module TcpChannel {
  import opened Bytes
  import opened DoipMessage
  import opened DiagnosticExchange
  import opened ExchangeSafety
  import CoarseExchange
  import StateContext
  import SyncTimer

  datatype ConnectionResult = ConnectionOk | ConnectionFailed | ConnectionTimeout

  datatype RoutingState = RoutingIdle | WaitForActivation | ActivationSuccessful | ActivationFailed

  const ROUTING_SUCCESSFUL: byte := 0x10

  /** What the environment does at each program point of a call that writes and then blocks. */
  datatype Schedule<F> = Schedule(
    beforeWrite: seq<F>,
    writeOk: bool,
    beforeTransition: seq<F>,
    beforeTimer: seq<F>,
    blocked: seq<F>,
    expires: bool,
    beforeCallback: seq<F>)

  // What a list of frames does to each handler.

  /** Only the first activation response counts, and only while one is awaited. */
  function AfterCodes(s: RoutingState, codes: seq<byte>): RoutingState {
    if s != WaitForActivation || codes == [] then s
    else if codes[0] == ROUTING_SUCCESSFUL then ActivationSuccessful
    else ActivationFailed
  }

  function AfterFrame(c: Config, s: ChannelState, f: Frame): ChannelState {
    match f
    case AckFrame(payloadType, code) => if s == WaitForAck then AckState(payloadType, code) else s
    case ResponseFrame(uds) =>
      if s == WaitForResponse && !KeepsWaiting(c, uds) then ChannelIdle else s
  }

  /** This is what handling the frame does to the channel in the machine of both threads. */
  lemma AfterFrameIsHandling(c: Config, s: State, f: Frame)
    requires s.reader == Listening
    ensures CoarseExchange.CoarseNext(c, s, CoarseExchange.Handle(f)).channel == AfterFrame(c, s.channel, f)
  {
    CoarseExchange.HandleEffect(c, s, f);
  }

  function AfterFrames(c: Config, s: ChannelState, fs: seq<Frame>): ChannelState {
    if fs == [] then s else AfterFrame(c, AfterFrames(c, s, fs[..|fs| - 1]), fs[|fs| - 1])
  }

  /** The acknowledgements among the frames, in order. */
  function Acks(fs: seq<Frame>): (acks: seq<Frame>)
    ensures forall a :: a in acks ==> a.AckFrame?
  {
    if fs == [] then []
    else Acks(fs[..|fs| - 1]) + if fs[|fs| - 1].AckFrame? then [fs[|fs| - 1]] else []
  }

  /** While an acknowledgement is awaited, the first one decides and nothing else matters. */
  lemma {:induction false} AwaitingAck(c: Config, fs: seq<Frame>)
    ensures AfterFrames(c, WaitForAck, fs)
            == if Acks(fs) == [] then WaitForAck else AckState(Acks(fs)[0].payloadType, Acks(fs)[0].code)
  {
    if fs != [] { AwaitingAck(c, fs[..|fs| - 1]); }
  }

  lemma {:induction false} NotAwaiting(c: Config, s: ChannelState, fs: seq<Frame>)
    requires s != WaitForAck && s != WaitForResponse
    ensures AfterFrames(c, s, fs) == s
  {
    if fs != [] { NotAwaiting(c, s, fs[..|fs| - 1]); }
  }

  lemma {:induction false} AwaitingResponse(c: Config, fs: seq<Frame>)
    ensures AfterFrames(c, WaitForResponse, fs) in {WaitForResponse, ChannelIdle}
  {
    if fs != [] { AwaitingResponse(c, fs[..|fs| - 1]); }
  }

  // How the blocking calls end.

  /** An activation answered in time: the response comes after the timer start and is seen before expiry. */
  function ActivationResult(sched: Schedule<byte>): ConnectionResult {
    if sched.beforeTimer == [] && sched.blocked != [] && !sched.expires then
      if sched.blocked[0] == ROUTING_SUCCESSFUL then ConnectionOk else ConnectionFailed
    else ConnectionTimeout
  }

  /** An acknowledgement received in time, likewise. */
  function HandshakeResult(sched: Schedule<Frame>): TransmissionResult {
    var acks := Acks(sched.blocked);
    if Acks(sched.beforeTimer) == [] && acks != [] && !sched.expires then
      if AckState(acks[0].payloadType, acks[0].code) == PositiveAckReceived
      then TransmitOk else NegTransmitAckReceived
    else NoTransmitAckReceived
  }

  predicate NoAck(fs: seq<Frame>) {
    forall i :: 0 <= i < |fs| ==> fs[i].ResponseFrame?
  }

  /** The first frame that is not a response is this one. */
  ghost predicate AnswersFirst(fs: seq<Frame>, ack: Frame) {
    exists i :: 0 <= i < |fs| && fs[i] == ack && NoAck(fs[..i])
  }

  /** What the first acknowledgement of a list is, if there is one. */
  lemma {:induction false} FirstOfAcks(fs: seq<Frame>)
    ensures Acks(fs) == [] ==> NoAck(fs) && forall a: Frame :: a.AckFrame? ==> !AnswersFirst(fs, a)
    ensures Acks(fs) != [] ==> exists i :: FirstAckAt(fs, i) && fs[i] == Acks(fs)[0]
  {
    if fs != [] {
      var last := |fs| - 1;
      FirstOfAcks(fs[..last]);
      if Acks(fs[..last]) != [] {
        var i :| FirstAckAt(fs[..last], i) && fs[..last][i] == Acks(fs[..last])[0];
        assert fs[..last][..i] == fs[..i];
        assert FirstAckAt(fs, i) && fs[i] == Acks(fs)[0];
      } else if fs[last].AckFrame? {
        assert FirstAckAt(fs, last);
      }
    }
  }

  predicate FirstAckAt(fs: seq<Frame>, i: int) {
    0 <= i < |fs| && fs[i].AckFrame? && NoAck(fs[..i])
  }

  lemma FirstAckUnique(fs: seq<Frame>, i: int, j: int)
    requires FirstAckAt(fs, i) && FirstAckAt(fs, j)
    ensures i == j
  {
    NotBefore(fs, i, j);
    NotBefore(fs, j, i);
  }

  lemma NotBefore(fs: seq<Frame>, i: int, j: int)
    requires 0 <= i < |fs| && fs[i].AckFrame? && 0 <= j <= |fs| && NoAck(fs[..j])
    ensures j <= i
  {
    forall k | 0 <= k < j ensures fs[k].ResponseFrame? {
      assert fs[..j][k] == fs[k];
    }
  }

  lemma AnswersFirstExactly(fs: seq<Frame>, a: Frame)
    requires a.AckFrame?
    ensures AnswersFirst(fs, a) <==> Acks(fs) != [] && Acks(fs)[0] == a
    ensures NoAck(fs) <==> Acks(fs) == []
  {
    FirstOfAcks(fs);
    if Acks(fs) != [] {
      var i :| FirstAckAt(fs, i) && fs[i] == Acks(fs)[0];
      if AnswersFirst(fs, a) {
        var j :| 0 <= j < |fs| && fs[j] == a && NoAck(fs[..j]);
        FirstAckUnique(fs, i, j);
      }
    }
  }

  /** A handshake in which the timer is started before any acknowledgement and does not expire. */
  predicate Listens(sched: Schedule<Frame>) {
    !sched.expires && NoAck(sched.beforeTimer)
  }

  /** The acknowledgement that answers it decides: 0x8002 with code 0x00 passes, any other refuses. */
  lemma HandshakeExactly(sched: Schedule<Frame>)
    ensures HandshakeResult(sched) == TransmitOk
            <==> Listens(sched) && AnswersFirst(sched.blocked, AckFrame(0x8002, 0x00))
    ensures HandshakeResult(sched) == NoTransmitAckReceived <==> !Listens(sched) || NoAck(sched.blocked)
    ensures HandshakeResult(sched) in {TransmitOk, NegTransmitAckReceived, NoTransmitAckReceived}
  {
    AnswersFirstExactly(sched.beforeTimer, AckFrame(0x8002, 0x00));
    AnswersFirstExactly(sched.blocked, AckFrame(0x8002, 0x00));
  }

  class TcpClient {
    var connected: bool
    /** The frames handed to the socket. */
    var wire: seq<seq<byte>>

    constructor ()
      ensures !connected && wire == []
    {
      connected, wire := false, [];
    }

    method ConnectToHost(socketOk: bool) returns (ok: bool)
      modifies this
      ensures ok == connected == (old(connected) || socketOk) && wire == old(wire)
    {
      ok := false;
      if !connected {
        if socketOk {
          connected := true;
          ok := true;
        }
      } else {
        ok := true;
      }
    }

    method DisconnectFromHost() returns (ok: bool)
      modifies this
      ensures ok == old(connected) && !connected && wire == old(wire)
    {
      ok := false;
      if connected {
        connected := false;
        ok := true;
      }
    }

    method Transmit(frame: seq<byte>, writeOk: bool) returns (ok: bool)
      modifies this
      ensures ok == (connected && writeOk) && connected == old(connected)
      ensures wire == old(wire) + if connected then [frame] else []
    {
      ok := false;
      if connected {
        wire := wire + [frame];
        ok := writeOk;
      }
    }
  }

  class RoutingActivationHandler {
    const client: TcpClient
    const context: StateContext.StateContext<RoutingState>
    const timer: SyncTimer.SyncTimer

    ghost predicate Valid()
      reads this, context
    {
      && context.Active()
      && context.states.Keys
         == {RoutingIdle, WaitForActivation, ActivationSuccessful, ActivationFailed}
    }

    ghost function State(): RoutingState
      requires Valid()
      reads this, context
    {
      context.current.value
    }

    constructor (client: TcpClient)
      ensures this.client == client && fresh(context) && fresh(timer) && Valid() && State() == RoutingIdle
    {
      this.client := client;
      timer := new SyncTimer.SyncTimer();
      context := new StateContext.StateContext<RoutingState>();
      new;
      context.AddState(RoutingIdle, RoutingIdle);
      context.AddState(WaitForActivation, WaitForActivation);
      context.AddState(ActivationSuccessful, ActivationSuccessful);
      context.AddState(ActivationFailed, ActivationFailed);
      context.TransitionTo(RoutingIdle);
    }

    method IsRoutingActivated() returns (activated: bool)
      requires Valid()
      ensures activated == (State() == ActivationSuccessful)
    {
      var s := context.GetActiveState();
      activated := s == ActivationSuccessful;
    }

    method Stop()
      requires Valid()
      modifies timer, context
      ensures Valid() && State() == RoutingIdle && !timer.startRunning
    {
      var active := timer.IsTimerActive();
      if active { timer.CancelWait(); }
      context.TransitionTo(RoutingIdle);
    }

    method ProcessResponse(code: byte)
      requires Valid()
      modifies timer, context
      ensures Valid() && State() == AfterCodes(old(State()), [code])
      ensures timer.startRunning == (old(timer.startRunning) && old(State()) != WaitForActivation)
    {
      var finalState := ActivationFailed;
      var s := context.GetActiveState();
      if s == WaitForActivation {
        if code == ROUTING_SUCCESSFUL { finalState := ActivationSuccessful; }
        context.TransitionTo(finalState);
        timer.CancelWait();
      }
    }

    /** Any number of responses, one after the other. */
    method Receive(codes: seq<byte>)
      requires Valid()
      modifies timer, context
      ensures Valid() && State() == AfterCodes(old(State()), codes)
      ensures timer.startRunning == (old(timer.startRunning) && !(old(State()) == WaitForActivation && codes != []))
    {
      for i := 0 to |codes|
        invariant Valid() && State() == AfterCodes(old(State()), codes[..i])
        invariant timer.startRunning == (old(timer.startRunning) && !(old(State()) == WaitForActivation && i > 0))
      {
        ProcessResponse(codes[i]);
      }
      assert codes[..|codes|] == codes;
    }

    /**
     * From idle the call ends only as (ok, successful), (timeout, idle) or (failed, idle), and which
     * one it is depends on the schedule alone; from any other state nothing happens.
     */
    method HandleRoutingActivationRequest(sa: u16, sched: Schedule<byte>) returns (result: ConnectionResult)
      requires Valid()
      modifies timer, context, client
      ensures Valid() && client.connected == old(client.connected)
      ensures old(State()) != RoutingIdle ==>
                result == ConnectionFailed && State() == old(State()) && client.wire == old(client.wire)
      ensures old(State()) == RoutingIdle ==>
                && (result, State()) in {(ConnectionOk, ActivationSuccessful),
                                         (ConnectionTimeout, RoutingIdle), (ConnectionFailed, RoutingIdle)}
                && result == if client.connected && sched.writeOk then ActivationResult(sched) else ConnectionFailed
      ensures old(State()) == RoutingIdle ==>
                var answered := client.connected && sched.writeOk && !sched.expires
                                && sched.beforeTimer == [] && sched.blocked != [];
                && (result == ConnectionOk <==> answered && sched.blocked[0] == 0x10)
                && (result == ConnectionTimeout <==> client.connected && sched.writeOk && !answered)
      ensures old(State()) == RoutingIdle ==>
                if client.connected then
                  && |client.wire| == |old(client.wire)| + 1 && old(client.wire) <= client.wire
                  && IsActivationRequest(client.wire[|old(client.wire)|], sa)
                else client.wire == old(client.wire)
    {
      result := ConnectionFailed;
      var s := context.GetActiveState();
      if s == RoutingIdle {
        Receive(sched.beforeWrite);
        var frame := ComposeRoutingActivationRequest(sa);
        var sent := client.Transmit(frame, sched.writeOk);
        Receive(sched.beforeTransition);
        if sent {
          context.TransitionTo(WaitForActivation);
          Receive(sched.beforeTimer);
          timer.startRunning := true;
          Receive(sched.blocked);
          if sched.expires || timer.startRunning {
            Receive(sched.beforeCallback);
            result := ConnectionTimeout;
            context.TransitionTo(RoutingIdle);
          } else {
            Receive(sched.beforeCallback);
            s := context.GetActiveState();
            if s == ActivationSuccessful {
              result := ConnectionOk;
            } else {
              context.TransitionTo(RoutingIdle);
            }
          }
        } else {
          context.TransitionTo(RoutingIdle);
        }
      }
    }
  }

  /** The fifteen bytes of a request with default activation type, as a peer reads them. */
  predicate IsActivationRequest(frame: seq<byte>, sa: u16) {
    && |frame| == 15
    && frame[..8] == [0x03, 0xFC, 0x00, 0x05, 0x00, 0x00, 0x00, 0x07]
    && BigEndian(frame[8..10]) == sa
    && frame[10..] == [0x00, 0x00, 0x00, 0x00, 0x00]
  }

  class DiagnosticMessageHandler {
    const config: Config
    const client: TcpClient
    const context: StateContext.StateContext<ChannelState>
    const timer: SyncTimer.SyncTimer

    ghost predicate Valid()
      reads this, context
    {
      && context.Active()
      && context.states.Keys
         == {ChannelIdle, WaitForAck, PositiveAckReceived, NegativeAckReceived, WaitForResponse}
    }

    ghost function State(): ChannelState
      requires Valid()
      reads this, context
    {
      context.current.value
    }

    constructor (config: Config, client: TcpClient)
      ensures this.config == config && this.client == client && fresh(context) && fresh(timer)
      ensures Valid() && State() == ChannelIdle
    {
      this.config, this.client := config, client;
      timer := new SyncTimer.SyncTimer();
      context := new StateContext.StateContext<ChannelState>();
      new;
      context.AddState(ChannelIdle, ChannelIdle);
      context.AddState(WaitForAck, WaitForAck);
      context.AddState(PositiveAckReceived, PositiveAckReceived);
      context.AddState(NegativeAckReceived, NegativeAckReceived);
      context.AddState(WaitForResponse, WaitForResponse);
      context.TransitionTo(ChannelIdle);
    }

    method Stop()
      requires Valid()
      modifies timer, context
      ensures Valid() && State() == ChannelIdle && !timer.startRunning
    {
      var active := timer.IsTimerActive();
      if active { timer.CancelWait(); }
      context.TransitionTo(ChannelIdle);
    }

    method ProcessFrame(f: Frame)
      requires Valid()
      modifies timer, context
      ensures Valid() && State() == AfterFrame(config, old(State()), f)
      ensures timer.startRunning == (old(timer.startRunning) && !(old(State()) == WaitForAck && f.AckFrame?))
    {
      var s := context.GetActiveState();
      match f {
        case AckFrame(payloadType, code) =>
          var finalState := NegativeAckReceived;
          if s == WaitForAck {
            if payloadType == DIAG_POSITIVE_ACK && code == 0x00 { finalState := PositiveAckReceived; }
            context.TransitionTo(finalState);
            timer.CancelWait();
          }
        case ResponseFrame(uds) =>
          if s == WaitForResponse {
            if !KeepsWaiting(config, uds) { context.TransitionTo(ChannelIdle); }
          }
      }
    }

    /** Any number of frames, one after the other. */
    method Receive(fs: seq<Frame>)
      requires Valid()
      modifies timer, context
      ensures Valid() && State() == AfterFrames(config, old(State()), fs)
      ensures old(State()) == WaitForAck ==> timer.startRunning == (old(timer.startRunning) && Acks(fs) == [])
      ensures old(State()) != WaitForAck ==> timer.startRunning == old(timer.startRunning)
    {
      for i := 0 to |fs|
        invariant Valid() && State() == AfterFrames(config, old(State()), fs[..i])
        invariant old(State()) == WaitForAck ==> timer.startRunning == (old(timer.startRunning) && Acks(fs[..i]) == [])
        invariant old(State()) != WaitForAck ==> timer.startRunning == old(timer.startRunning)
      {
        assert fs[..i + 1][..i] == fs[..i];
        if old(State()) == WaitForAck {
          AwaitingAck(config, fs[..i]);
        } else {
          NeverAwaitsAck(config, old(State()), fs[..i]);
        }
        ProcessFrame(fs[i]);
      }
      assert fs[..|fs|] == fs;
    }

    /**
     * From idle the call ends only as (ok, waiting for the response) or (any other result, idle), and
     * which one it is depends on the schedule alone; from any other state nothing happens.
     */
    method HandleDiagnosticRequest(sa: u16, ta: u16, uds: seq<byte>, sched: Schedule<Frame>)
      returns (result: TransmissionResult)
      requires Valid()
      modifies timer, context, client
      ensures Valid() && client.connected == old(client.connected)
      ensures old(State()) != ChannelIdle ==>
                result == TransmitBusy && State() == old(State()) && client.wire == old(client.wire)
      ensures old(State()) == ChannelIdle ==>
                && State() == (if result == TransmitOk then WaitForResponse else ChannelIdle)
                && result == if client.connected && sched.writeOk then HandshakeResult(sched) else TransmitFailed
      ensures old(State()) == ChannelIdle ==>
                && (result == TransmitFailed <==> !client.connected || !sched.writeOk)
                && (result == TransmitOk <==>
                      client.connected && sched.writeOk
                      && Listens(sched) && AnswersFirst(sched.blocked, AckFrame(0x8002, 0x00)))
                && (result == NoTransmitAckReceived <==>
                      client.connected && sched.writeOk && (!Listens(sched) || NoAck(sched.blocked)))
      ensures old(State()) == ChannelIdle ==>
                if client.connected then
                  && |client.wire| == |old(client.wire)| + 1 && old(client.wire) <= client.wire
                  && IsDiagnosticRequest(client.wire[|old(client.wire)|], sa, ta, uds)
                else client.wire == old(client.wire)
    {
      result := TransmitFailed;
      var s := context.GetActiveState();
      if s == ChannelIdle {
        HandshakeExactly(sched);
        NotAwaiting(config, ChannelIdle, sched.beforeWrite);
        NotAwaiting(config, ChannelIdle, sched.beforeTransition);
        Receive(sched.beforeWrite);
        var frame := ComposeDiagnosticRequest(sa, ta, uds);
        var sent := client.Transmit(frame, sched.writeOk);
        Receive(sched.beforeTransition);
        if sent {
          context.TransitionTo(WaitForAck);
          Receive(sched.beforeTimer);
          timer.startRunning := true;
          Receive(sched.blocked);
          AwaitingAck(config, sched.beforeTimer);
          AwaitingAck(config, sched.blocked);
          if sched.expires || timer.startRunning {
            Receive(sched.beforeCallback);
            result := NoTransmitAckReceived;
            context.TransitionTo(ChannelIdle);
          } else {
            assert State() in {PositiveAckReceived, NegativeAckReceived};
            NotAwaiting(config, State(), sched.beforeCallback);
            Receive(sched.beforeCallback);
            s := context.GetActiveState();
            if s == PositiveAckReceived {
              context.TransitionTo(WaitForResponse);
              result := TransmitOk;
            } else {
              result := NegTransmitAckReceived;
              context.TransitionTo(ChannelIdle);
            }
          }
        } else {
          context.TransitionTo(ChannelIdle);
        }
      } else {
        result := TransmitBusy;
      }
    }
  }

  lemma {:induction false} NeverAwaitsAck(c: Config, s: ChannelState, fs: seq<Frame>)
    requires s != WaitForAck
    ensures AfterFrames(c, s, fs) != WaitForAck
  {
    if fs != [] { NeverAwaitsAck(c, s, fs[..|fs| - 1]); }
  }
}
