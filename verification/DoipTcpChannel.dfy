/** The channel as the application drives it: connect, disconnect, transmit and stop, in any order. */
module DoipTcpChannel {
  import opened Bytes
  import opened DoipMessage
  import opened DiagnosticExchange
  import opened TcpChannel

  datatype DisconnectionResult = DisconnectionOk | DisconnectionFailed

  /** What a run is judged by. */
  datatype Mark =
    | ActivationAccepted                         // a routing activation response with code 0x10 took effect
    | DiagnosticSent                             // a diagnostic request was handed to the socket
    | Disconnected
    | Stopped

  /** The state of the channel between two calls, and the marks left so far. */
  datatype View = View(connected: bool, routing: RoutingState, channel: ChannelState, log: seq<Mark>)

  const Fresh := View(false, RoutingIdle, ChannelIdle, [])

  /** A call of the application with what the environment does meanwhile, or a frame in between. */
  datatype Action =
    | Connect(socketOk: bool, sched: Schedule<byte>, others: seq<Frame>)
    | Disconnect
    | Transmit(uds: seq<byte>, exchange: Schedule<Frame>)
    | Stop
    | ArriveCode(code: byte)
    | ArriveFrame(frame: Frame)

  function Act(c: Config, v: View, a: Action): View {
    match a
    case Connect(socketOk, sched, others) =>
      if !v.connected && !socketOk then v
      else
        var activated := v.routing == RoutingIdle && sched.writeOk && ActivationResult(sched) == ConnectionOk;
        View(true, if activated then ActivationSuccessful else v.routing,
             AfterFrames(c, v.channel, others),
             v.log + if activated then [ActivationAccepted] else [])
    case Disconnect =>
      if !v.connected then v
      else if v.routing == ActivationSuccessful then View(false, RoutingIdle, ChannelIdle, v.log + [Disconnected])
      else v.(connected := false, log := v.log + [Disconnected])
    case Transmit(_, sched) =>
      if v.routing != ActivationSuccessful || v.channel != ChannelIdle then v
      else
        v.(channel := if v.connected && sched.writeOk && HandshakeResult(sched) == TransmitOk
                      then WaitForResponse else ChannelIdle,
           log := v.log + if v.connected then [DiagnosticSent] else [])
    case Stop => View(v.connected, RoutingIdle, ChannelIdle, v.log + [Stopped])
    case ArriveCode(code) => v.(routing := AfterCodes(v.routing, [code]))
    case ArriveFrame(f) => v.(channel := AfterFrame(c, v.channel, f))
  }

  function Run(c: Config, acts: seq<Action>): View {
    if acts == [] then Fresh else Act(c, Run(c, acts[..|acts| - 1]), acts[|acts| - 1])
  }

  class DoipTcpChannel {
    const client: TcpClient
    const routing: RoutingActivationHandler
    const diagnostic: DiagnosticMessageHandler
    ghost var log: seq<Mark>

    ghost predicate Valid()
      reads this, routing, routing.context, diagnostic, diagnostic.context
    {
      routing.client == client && diagnostic.client == client && routing.Valid() && diagnostic.Valid()
    }

    ghost function CurrentView(): View
      requires Valid()
      reads this, client, routing, routing.context, diagnostic, diagnostic.context
    {
      View(client.connected, routing.State(), diagnostic.State(), log)
    }

    constructor (config: Config)
      ensures Valid() && CurrentView() == Fresh && diagnostic.config == config
      ensures fresh(client) && fresh(routing) && fresh(routing.context) && fresh(routing.timer)
      ensures fresh(diagnostic) && fresh(diagnostic.context) && fresh(diagnostic.timer)
    {
      var tcpClient := new TcpClient();
      client := tcpClient;
      routing := new RoutingActivationHandler(tcpClient);
      diagnostic := new DiagnosticMessageHandler(config, tcpClient);
      log := [];
    }

    method ConnectToHost(sa: u16, socketOk: bool, sched: Schedule<byte>, others: seq<Frame>)
      returns (result: ConnectionResult)
      requires Valid()
      modifies this, client, routing.timer, routing.context, diagnostic.timer, diagnostic.context
      ensures Valid()
      ensures CurrentView() == Act(diagnostic.config, old(CurrentView()), Connect(socketOk, sched, others))
      ensures result == ConnectionOk <==>
                old(CurrentView()).routing == RoutingIdle && CurrentView().routing == ActivationSuccessful
      ensures result ==
                if !old(CurrentView()).connected && !socketOk then ConnectionFailed
                else if old(CurrentView()).routing != RoutingIdle || !sched.writeOk then ConnectionFailed
                else ActivationResult(sched)
      ensures result == ConnectionOk ==> sched.blocked != [] && sched.blocked[0] == 0x10
    {
      result := ConnectionFailed;
      var connected := client.ConnectToHost(socketOk);
      if connected {
        result := routing.HandleRoutingActivationRequest(sa, sched);
        diagnostic.Receive(others);
        if result == ConnectionOk { log := log + [ActivationAccepted]; }
      }
    }

    method DisconnectFromHost() returns (result: DisconnectionResult)
      requires Valid()
      modifies this, client, routing.timer, routing.context, diagnostic.timer, diagnostic.context
      ensures Valid()
      ensures CurrentView() == Act(diagnostic.config, old(CurrentView()), Disconnect)
      ensures result == DisconnectionOk <==> old(CurrentView()).connected
    {
      result := DisconnectionFailed;
      var disconnected := client.DisconnectFromHost();
      if disconnected {
        log := log + [Disconnected];
        var activated := routing.IsRoutingActivated();
        if activated {
          routing.Stop();
          diagnostic.Stop();
        }
        result := DisconnectionOk;
      }
    }

    method Transmit(sa: u16, ta: u16, uds: seq<byte>, sched: Schedule<Frame>) returns (result: TransmissionResult)
      requires Valid()
      modifies this, client, routing.timer, routing.context, diagnostic.timer, diagnostic.context
      ensures Valid()
      ensures CurrentView() == Act(diagnostic.config, old(CurrentView()), Action.Transmit(uds, sched))
      ensures old(CurrentView()).routing != ActivationSuccessful ==> result == TransmitFailed
      ensures old(CurrentView()).routing == ActivationSuccessful && old(CurrentView()).channel != ChannelIdle ==>
                result == TransmitBusy
      ensures old(CurrentView()).routing == ActivationSuccessful && old(CurrentView()).channel == ChannelIdle ==>
                result == if !old(CurrentView()).connected || !sched.writeOk then TransmitFailed
                          else HandshakeResult(sched)
      ensures result == TransmitOk <==>
                old(CurrentView()).channel == ChannelIdle && CurrentView().channel == WaitForResponse
      ensures result == TransmitOk ==>
                && old(CurrentView()).routing == ActivationSuccessful && old(CurrentView()).connected
                && AnswersFirst(sched.blocked, AckFrame(0x8002, 0x00))
      ensures CurrentView().log == old(CurrentView()).log + [DiagnosticSent] ==>
                && |client.wire| == |old(client.wire)| + 1 && old(client.wire) <= client.wire
                && IsDiagnosticRequest(client.wire[|old(client.wire)|], sa, ta, uds)
      ensures CurrentView().log == old(CurrentView()).log ==> client.wire == old(client.wire)
    {
      result := TransmitFailed;
      var activated := routing.IsRoutingActivated();
      if activated {
        ghost var free := diagnostic.State() == ChannelIdle;
        result := diagnostic.HandleDiagnosticRequest(sa, ta, uds, sched);
        if free && client.connected { log := log + [DiagnosticSent]; }
      }
    }

    method Stop()
      requires Valid()
      modifies this, client, routing.timer, routing.context, diagnostic.timer, diagnostic.context
      ensures Valid()
      ensures CurrentView() == Act(diagnostic.config, old(CurrentView()), Action.Stop)
    {
      routing.Stop();
      diagnostic.Stop();
      log := log + [Stopped];
    }

    /** One received frame, between two calls: decoded, checked and dispatched to its handler. */
    method HandleMessage(frame: seq<byte>)
      requires Valid()
      requires |frame| > HEADER_SIZE + ADDRESSES_SIZE
      modifies this, client, routing.timer, routing.context, diagnostic.timer, diagnostic.context
      ensures Valid()
      ensures CurrentView() ==
              match Dispatch(frame)
              case RoutingResponse(code) => Act(diagnostic.config, old(CurrentView()), ArriveCode(code))
              case DiagResponse(uds) =>
                Act(diagnostic.config, old(CurrentView()), ArriveFrame(ResponseFrame(uds)))
              case DiagAck(payloadType, code) =>
                Act(diagnostic.config, old(CurrentView()), ArriveFrame(AckFrame(payloadType, code)))
              case Ignored => old(CurrentView())
    {
      match Dispatch(frame) {
        case RoutingResponse(code) => routing.ProcessResponse(code);
        case DiagResponse(uds) => diagnostic.ProcessFrame(ResponseFrame(uds));
        case DiagAck(payloadType, code) => diagnostic.ProcessFrame(AckFrame(payloadType, code));
        case Ignored =>
      }
    }
  }

  // Whole runs.

  /** What holds between two calls. */
  predicate Settled(v: View) {
    && v.routing in {RoutingIdle, ActivationSuccessful}
    && v.channel in {ChannelIdle, WaitForResponse}
    && (v.routing == ActivationSuccessful ==> v.connected)
    && (v.channel == WaitForResponse ==> v.routing == ActivationSuccessful)
  }

  lemma SettledStep(c: Config, v: View, a: Action)
    requires Settled(v)
    ensures Settled(Act(c, v, a))
  {
    match a {
      case Connect(_, _, others) =>
        if v.channel == ChannelIdle { NotAwaiting(c, ChannelIdle, others); }
        else { AwaitingResponse(c, others); }
      case _ =>
    }
  }

  /**
   * Between calls routing is either idle or activated, an activated channel is connected, and only an
   * activated channel can wait for a response. So a disconnect always leaves the channel free.
   */
  lemma {:induction false} BetweenCalls(c: Config, acts: seq<Action>)
    ensures Settled(Run(c, acts))
    ensures Run(c, acts + [Disconnect]).channel == ChannelIdle && !Run(c, acts + [Disconnect]).connected
  {
    if acts != [] {
      var last := |acts| - 1;
      BetweenCalls(c, acts[..last]);
      SettledStep(c, Run(c, acts[..last]), acts[last]);
    }
    assert (acts + [Disconnect])[..|acts|] == acts;
  }

  predicate Ends(m: Mark) {
    m == Disconnected || m == Stopped
  }

  /** Position `i` of the log is covered by an accepted activation that nothing ended before `i`. */
  ghost predicate Covered(log: seq<Mark>, i: nat)
    requires i <= |log|
  {
    exists j :: 0 <= j < i && log[j] == ActivationAccepted && forall k :: j < k < i ==> !Ends(log[k])
  }

  ghost predicate Gated(v: View) {
    && (v.routing == ActivationSuccessful ==> Covered(v.log, |v.log|))
    && (forall i :: 0 <= i < |v.log| && v.log[i] == DiagnosticSent ==> Covered(v.log, i))
  }

  lemma CoveredExtends(log: seq<Mark>, more: seq<Mark>, i: nat)
    requires i <= |log| && Covered(log, i)
    ensures Covered(log + more, i)
  {
    var j :| 0 <= j < i && log[j] == ActivationAccepted && forall k :: j < k < i ==> !Ends(log[k]);
    assert (log + more)[j] == ActivationAccepted;
  }

  lemma CoveredStays(log: seq<Mark>, m: Mark)
    requires m == ActivationAccepted || (Covered(log, |log|) && !Ends(m))
    ensures Covered(log + [m], |log| + 1)
  {
    if m == ActivationAccepted {
      assert (log + [m])[|log|] == ActivationAccepted;
    } else {
      var j :| 0 <= j < |log| && log[j] == ActivationAccepted && forall k :: j < k < |log| ==> !Ends(log[k]);
      assert (log + [m])[j] == ActivationAccepted;
    }
  }

  lemma GatedStep(c: Config, v: View, a: Action)
    requires Settled(v) && Gated(v)
    ensures Gated(Act(c, v, a))
  {
    var w := Act(c, v, a);
    assert |v.log| <= |w.log| <= |v.log| + 1 && w.log[..|v.log|] == v.log;
    assert w.log == v.log + w.log[|v.log|..];
    forall i | 0 <= i < |v.log| && w.log[i] == DiagnosticSent ensures Covered(w.log, i) {
      CoveredExtends(v.log, w.log[|v.log|..], i);
    }
    if |w.log| > |v.log| {
      var m := w.log[|v.log|];
      assert w.log == v.log + [m];
      if m == DiagnosticSent { CoveredExtends(v.log, [m], |v.log|); }
      if w.routing == ActivationSuccessful { CoveredStays(v.log, m); }
    } else {
      assert w.log == v.log;
    }
  }

  /**
   * On every run, each diagnostic request handed to the socket is preceded by an accepted activation,
   * with no disconnect and no stop in between.
   */
  lemma {:induction false} RoutingGate(c: Config, acts: seq<Action>)
    ensures Gated(Run(c, acts))
  {
    if acts != [] {
      var last := |acts| - 1;
      RoutingGate(c, acts[..last]);
      BetweenCalls(c, acts[..last]);
      GatedStep(c, Run(c, acts[..last]), acts[last]);
    }
  }
}
