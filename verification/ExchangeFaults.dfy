/**
 * How a channel stays busy, and the interleavings in which a call ends with the channel in another
 * state than its result suggests, or does not end at all.
 */
module ExchangeFaults {
  import opened Bytes
  import opened DiagnosticExchange
  import opened ExchangeSafety

  /** How many steps the reader is from listening again, at most. */
  function Remaining(r: Reader): nat {
    match r
    case Listening => 0
    case CheckWaitForAck(_, _) => 3
    case WriteAckState(_) => 2
    case CancelAckTimer => 1
    case CheckWaitForResponse(uds) => |uds| + 9
    case Indicate(uds) => |uds| + 8
    case WritePending => 2
    case CancelAfterPending => 1
    case ResizeBuffer(uds) => |uds| + 7
    case WriteFinal(uds) => |uds| + 6
    case CancelAfterFinal(uds) => |uds| + 5
    case CopyBytes(uds, i) => if i < |uds| then |uds| - i + 3 else 3
    case WriteSuccess(_) => 2
    case ReleaseChannel => 1
  }

  lemma RemainingDecreases(c: Config, s: State)
    requires s.reader != Listening
    ensures Remaining(NextReader(c, s).reader) < Remaining(s.reader)
  {
  }

  /** The reader finishes the frame it is handling with no step of the user thread in between. */
  function Finish(c: Config, s: State): (t: State)
    ensures t.reader == Listening && t.user == s.user
    decreases Remaining(s.reader)
  {
    if s.reader == Listening then s
    else
      RemainingDecreases(c, s);
      Finish(c, NextReader(c, s))
  }

  /** The user thread alone takes `n` steps. */
  function UserSteps(s: State, n: nat): State
    decreases n
  {
    if n == 0 then s else UserSteps(NextUser(s), n - 1)
  }

  /** Event `k` is the step in which a call learns whether the channel is free. */
  predicate Asks(c: Config, es: seq<Event>, k: nat)
    requires k < |es|
  {
    es[k] == UserStep && Exec(c, es[..k]).user == CheckIdle
  }

  // A busy channel.

  predicate Outside(u: User) {
    !InCall(u) || u == CheckIdle
  }

  /** A response is outstanding, no call is past the check, and the reader is not about to release. */
  predicate Outstanding(c: Config, s: State) {
    && s.channel == WaitForResponse
    && Outside(s.user)
    && match s.reader
       case Listening => true
       case CheckWaitForAck(_, _) => true
       case CheckWaitForResponse(uds) => KeepsWaiting(c, uds)
       case Indicate(uds) => KeepsWaiting(c, uds)
       case WritePending => true
       case CancelAfterPending => true
       case _ => false
  }

  /** A reset, or a response other than a pending answer within the buffer limit. */
  predicate Releases(c: Config, e: Event) {
    e == Reset || (e.Arrive? && e.frame.ResponseFrame? && !KeepsWaiting(c, e.frame.uds))
  }

  lemma OutstandingStep(c: Config, s: State, e: Event)
    requires Outstanding(c, s) && !Releases(c, e)
    ensures Outstanding(c, Next(c, s, e))
    ensures s.user == CheckIdle && e == UserStep ==> Next(c, s, e).user == Returned(Failed(BusyProcessing))
    ensures s.user != WriteRequest
  {
  }

  /** From event `from` on, no call writes a request and each that asks is told the channel is busy. */
  ghost predicate AllBusy(c: Config, es: seq<Event>, from: nat) {
    forall k :: from <= k < |es| ==>
      !Writes(c, es, k) && (Asks(c, es, k) ==> Exec(c, es[..k + 1]).user == Returned(Failed(BusyProcessing)))
  }

  /** A step that writes nothing, and refuses if it asks, keeps it so. */
  lemma AllBusyStep(c: Config, run: seq<Event>, e: Event, from: nat)
    requires AllBusy(c, run, from) && Exec(c, run).user != WriteRequest
    requires Exec(c, run).user == CheckIdle && e == UserStep ==>
               Next(c, Exec(c, run), e).user == Returned(Failed(BusyProcessing))
    ensures AllBusy(c, run + [e], from)
  {
    var all := run + [e];
    ExecStep(c, run, e);
    assert all[..|run|] == run && all[..|run| + 1] == all;
    forall k | from <= k < |run|
      ensures !Writes(c, all, k)
      ensures Asks(c, all, k) ==> Exec(c, all[..k + 1]).user == Returned(Failed(BusyProcessing))
    {
      PrefixStable(run, [e], k);
      PrefixStable(run, [e], k + 1);
      assert !Writes(c, run, k);
      assert Asks(c, all, k) == Asks(c, run, k);
    }
  }

  /**
   * While a response is outstanding, any number of calls, acknowledgements and pending answers leave
   * it so: no call writes a request and each is told that the channel is busy.
   */
  lemma {:induction false} BusyPersists(c: Config, es: seq<Event>, fs: seq<Event>)
    requires Outstanding(c, Exec(c, es))
    requires forall e :: e in fs ==> !Releases(c, e)
    ensures Outstanding(c, Exec(c, es + fs)) && AllBusy(c, es + fs, |es|)
  {
    if fs == [] {
      assert es + fs == es;
    } else {
      var last := |fs| - 1;
      assert es + fs == es + fs[..last] + [fs[last]];
      var run := es + fs[..last];
      BusyPersists(c, es, fs[..last]);
      OutstandingStep(c, Exec(c, run), fs[last]);
      AllBusyStep(c, run, fs[last], |es|);
      ExecStep(c, run, fs[last]);
    }
  }

  // One frame handled as a whole.

  /** The copy loop leaves the frame in the buffer, then success, then an idle channel. */
  lemma {:induction false} FinishCopy(c: Config, s: State)
    requires s.reader.CopyBytes?
    requires s.reader.copied <= |s.reader.uds| == |s.buffer|
    requires forall k :: 0 <= k < s.reader.copied ==> s.buffer[k] == s.reader.uds[k]
    ensures Finish(c, s) == s.(buffer := s.reader.uds, conversation := DiagSuccess,
                               channel := ChannelIdle, reader := Listening)
    decreases |s.reader.uds| - s.reader.copied
  {
    var t := NextReader(c, s);
    assert Finish(c, s) == Finish(c, t);
    if t.reader.CopyBytes? {
      FinishCopy(c, t);
    } else {
      assert s.buffer == s.reader.uds;
      var u := NextReader(c, t);
      var v := NextReader(c, u);
      assert Finish(c, t) == Finish(c, u) == Finish(c, v) == v;
    }
  }

  lemma FinishFinal(c: Config, s: State, uds: seq<byte>)
    requires s.reader == ResizeBuffer(uds)
    ensures Finish(c, s) == s.(buffer := uds, conversation := DiagSuccess, responseTimer := false,
                               channel := ChannelIdle, reader := Listening)
  {
    var s1 := NextReader(c, s);
    var s2 := NextReader(c, s1);
    var s3 := NextReader(c, s2);
    assert Finish(c, s) == Finish(c, s1) == Finish(c, s2) == Finish(c, s3);
    FinishCopy(c, s3);
  }

  lemma FinishOther(c: Config, s: State)
    requires s.reader.WritePending? || s.reader.ReleaseChannel?
    ensures Finish(c, s) ==
            if s.reader.WritePending? then
              s.(conversation := ReceivedPendingRes, responseTimer := false, reader := Listening)
            else s.(channel := ChannelIdle, reader := Listening)
  {
    var s1 := NextReader(c, s);
    assert Finish(c, s) == Finish(c, s1);
    if s1.reader != Listening {
      assert Finish(c, s1) == Finish(c, NextReader(c, s1)) == NextReader(c, s1);
    }
  }

  /** What handling one response amounts to when nothing interleaves with it. */
  lemma FinishResponse(c: Config, s: State, uds: seq<byte>)
    requires s.reader == CheckWaitForResponse(uds)
    ensures Finish(c, s) ==
            if s.channel != WaitForResponse then s.(reader := Listening)
            else if IsFinal(c, uds) then
              s.(buffer := uds, conversation := DiagSuccess, responseTimer := false,
                 channel := ChannelIdle, reader := Listening)
            else if KeepsWaiting(c, uds) then
              s.(conversation := ReceivedPendingRes, responseTimer := false, reader := Listening)
            else s.(channel := ChannelIdle, reader := Listening)
  {
    var s1 := NextReader(c, s);
    assert Finish(c, s) == Finish(c, s1);
    if s.channel == WaitForResponse {
      var s2 := NextReader(c, s1);
      assert Finish(c, s1) == Finish(c, s2);
      if IsFinal(c, uds) {
        FinishFinal(c, s2, uds);
      } else {
        FinishOther(c, s2);
      }
    } else {
      assert Finish(c, s1) == s1;
    }
  }

  /** What handling one acknowledgement amounts to when nothing interleaves with it. */
  lemma FinishAck(c: Config, s: State, payloadType: u16, code: byte)
    requires s.reader == CheckWaitForAck(payloadType, code)
    ensures Finish(c, s) ==
            if s.channel != WaitForAck then s.(reader := Listening)
            else s.(channel := AckState(payloadType, code), ackTimer := false, reader := Listening)
    ensures s.channel == WaitForAck ==>
              Finish(c, s).channel == if payloadType == 0x8002 && code == 0x00 then PositiveAckReceived
                                      else NegativeAckReceived
  {
    var s1 := NextReader(c, s);
    assert Finish(c, s) == Finish(c, s1);
    if s.channel == WaitForAck {
      var s2 := NextReader(c, s1);
      var s3 := NextReader(c, s2);
      assert Finish(c, s1) == Finish(c, s2) == Finish(c, s3) == s3;
    } else {
      assert Finish(c, s1) == s1;
    }
  }

  /** The outstanding response ends exactly with a response other than a pending answer in bounds. */
  lemma OutstandingEnds(c: Config, s: State, uds: seq<byte>)
    requires s.channel == WaitForResponse && s.reader == Listening
    ensures Finish(c, Next(c, s, Arrive(ResponseFrame(uds)))).channel == ChannelIdle
            <==> Releases(c, Arrive(ResponseFrame(uds)))
    ensures Finish(c, Next(c, s, Arrive(ResponseFrame(uds)))).channel == WaitForResponse
            <==> 3 <= |uds| <= c.rxBufferSize && uds[0] == 0x7F && uds[2] == 0x78
  {
    FinishResponse(c, Next(c, s, Arrive(ResponseFrame(uds))), uds);
  }

  // A call that fails in its handshake.

  /** The call is about to put the channel back to idle and return its failure. */
  predicate GivesUp(u: User) {
    u.WriteFailed? || u.AckTimedOut? || u.AckRefused?
  }

  /**
   * A failed call leaves the channel idle, once the reader has finished the frame it was handling,
   * exactly when the reader was not between its query and its transition on an acknowledgement.
   */
  lemma FailedCallLeavesIdle(c: Config, s: State)
    requires Owned(s) && GivesUp(s.user)
    ensures var t := NextUser(s);
            && t.channel == ChannelIdle && t.user.Returned?
            && (Finish(c, t).channel == ChannelIdle <==> !s.reader.WriteAckState?)
  {
    var t := NextUser(s);
    match s.reader {
      case CheckWaitForAck(payloadType, code) => FinishAck(c, t, payloadType, code);
      case CheckWaitForResponse(uds) => FinishResponse(c, t, uds);
      case WriteAckState(_) =>
        assert Finish(c, t) == Finish(c, NextReader(c, t)) == Finish(c, NextReader(c, NextReader(c, t)));
      case CancelAckTimer => assert Finish(c, t) == Finish(c, NextReader(c, t));
      case Listening =>
      case _ => assert false;
    }
  }

  /** The channel claims an acknowledgement nobody waits for. */
  predicate Wedged(s: State) {
    && s.channel in {PositiveAckReceived, NegativeAckReceived}
    && Outside(s.user)
    && !MidResponse(s.reader) && !s.reader.WriteAckState?
  }

  lemma WedgedStep(c: Config, s: State, e: Event)
    requires Wedged(s) && e != Reset
    ensures Wedged(Next(c, s, e)) && Next(c, s, e).channel == s.channel
    ensures s.user == CheckIdle && e == UserStep ==> Next(c, s, e).user == Returned(Failed(BusyProcessing))
    ensures s.user != WriteRequest
  {
  }

  /** From then on, whatever frames arrive, every request is refused as busy until a reset. */
  lemma {:induction false} WedgedUntilReset(c: Config, es: seq<Event>, fs: seq<Event>)
    requires Wedged(Exec(c, es)) && Reset !in fs
    ensures Wedged(Exec(c, es + fs)) && Exec(c, es + fs).channel == Exec(c, es).channel
    ensures AllBusy(c, es + fs, |es|)
  {
    if fs == [] {
      assert es + fs == es;
    } else {
      var last := |fs| - 1;
      assert es + fs == es + fs[..last] + [fs[last]];
      var run := es + fs[..last];
      WedgedUntilReset(c, es, fs[..last]);
      WedgedStep(c, Exec(c, run), fs[last]);
      AllBusyStep(c, run, fs[last], |es|);
      ExecStep(c, run, fs[last]);
    }
  }

  /** Extends a run by an event that leads to the given state. */
  lemma Extend(c: Config, es: seq<Event>, s: State, e: Event, s': State) returns (es': seq<Event>)
    requires Exec(c, es) == s && Next(c, s, e) == s'
    ensures Exec(c, es') == s'
  {
    es' := es + [e];
    ExecStep(c, es, e);
  }

  /** A request written and its acknowledgement timer running. */
  lemma ReachBlockedOnAck(c: Config) returns (es: seq<Event>, s: State)
    ensures Exec(c, es) == s
    ensures s == Initial.(channel := WaitForAck, ackTimer := true, user := BlockedOnAck)
  {
    var s0 := Initial;
    es := Extend(c, [], s0, Call(true, true), s0.(user := CheckIdle));
    es := Extend(c, es, s0.(user := CheckIdle), UserStep, s0.(user := WriteRequest));
    es := Extend(c, es, s0.(user := WriteRequest), WriteDone(true), s0.(user := ToWaitForAck));
    var s1 := s0.(channel := WaitForAck);
    es := Extend(c, es, s0.(user := ToWaitForAck), UserStep, s1.(user := StartAckTimer));
    s := s1.(user := BlockedOnAck, ackTimer := true);
    es := Extend(c, es, s1.(user := StartAckTimer), UserStep, s);
  }

  /** The same with a positive acknowledgement accepted. */
  lemma ReachAckAccepted(c: Config) returns (es: seq<Event>, s: State)
    ensures Exec(c, es) == s
    ensures s == Initial.(channel := WaitForAck, ackTimer := true, user := BlockedOnAck,
                          reader := WriteAckState(PositiveAckReceived))
  {
    var es2, s2 := ReachBlockedOnAck(c);
    es := es2;
    es := Extend(c, es, s2, Arrive(AckFrame(0x8002, 0x00)), s2.(reader := CheckWaitForAck(0x8002, 0x00)));
    s := s2.(reader := WriteAckState(PositiveAckReceived));
    es := Extend(c, es, s2.(reader := CheckWaitForAck(0x8002, 0x00)), ReaderStep, s);
  }

  /** The call has timed out on an acknowledgement that the reader is about to write. */
  lemma ReachLateAck(c: Config) returns (es: seq<Event>, s: State)
    ensures Exec(c, es) == s
    ensures s == Initial.(channel := ChannelIdle, ackTimer := true, user := Returned(Failed(AckTimeout)),
                          reader := WriteAckState(PositiveAckReceived))
  {
    var es0, s0 := ReachAckAccepted(c);
    es := Extend(c, es0, s0, TimerExpires, s0.(user := AckTimedOut));
    s := s0.(channel := ChannelIdle, user := Returned(Failed(AckTimeout)));
    es := Extend(c, es, s0.(user := AckTimedOut), UserStep, s);
  }

  /** A wedged channel is reachable: the ack timer expires between the reader's query and transition. */
  lemma WedgeReachable(c: Config)
    ensures exists es :: var s := Exec(c, es);
              s.user == Returned(Failed(AckTimeout)) && s.channel == PositiveAckReceived
              && s.reader == Listening && Wedged(s)
  {
    var es, s1 := ReachLateAck(c);
    var s2 := s1.(channel := PositiveAckReceived, reader := CancelAckTimer);
    es := Extend(c, es, s1, ReaderStep, s2);
    es := Extend(c, es, s2, ReaderStep, s2.(ackTimer := false, reader := Listening));
    assert Wedged(Exec(c, es));
  }

  // A call that does not end.

  /** The response loop tests a state that it has no branch for. */
  predicate Spinning(s: State) {
    s.user.LoopTest? && s.conversation in {DiagWaitForRes, ReceivedFinalRes}
  }

  /** It does so while there is no frame at work that could change that state. */
  predicate Stuck(s: State) {
    Spinning(s) && s.reader == Listening
  }

  /**
   * A pending answer is split around the start of a call's wait: the call has overwritten the record
   * of it and blocks on its timer, and the cancellation of that timer is the reader's next step.
   */
  predicate Split(s: State) {
    s.user.BlockedOnResponse? && s.conversation == DiagWaitForRes && s.reader == CancelAfterPending
  }

  ghost predicate SplitBefore(c: Config, es: seq<Event>) {
    exists n :: 0 <= n <= |es| && Split(Exec(c, es[..n]))
  }

  /** Unless a pending answer was split, an unmarked conversation is only met by a delivery under way. */
  predicate Whole(s: State, split: bool) {
    && (s.conversation == ReceivedFinalRes ==>
          s.reader.CancelAfterFinal? || s.reader.CopyBytes? || s.reader.WriteSuccess?)
    && (s.conversation == DiagWaitForRes && PastTimer(s) ==>
          split || s.reader.CopyBytes? || s.reader.WriteSuccess?)
  }

  /** The response timer was cancelled and the call has seen it or is about to. */
  predicate PastTimer(s: State) {
    || (s.user.BlockedOnResponse? && !s.responseTimer)
    || s.user.QueryFinal? || s.user.QueryPending? || s.user.LoopTest? || s.user.LoopSwitch?
  }

  lemma WholeStep(c: Config, s: State, e: Event, split: bool)
    requires Whole(s, split)
    ensures Whole(Next(c, s, e), split || Split(s))
  {
    match e {
      case UserStep => WholeByUser(s, split);
      case ReaderStep => WholeByReader(c, s, split);
      case _ =>
    }
  }

  lemma WholeByUser(s: State, split: bool)
    requires Whole(s, split)
    ensures Whole(NextUser(s), split)
  {
  }

  lemma WholeByReader(c: Config, s: State, split: bool)
    requires Whole(s, split)
    ensures Whole(NextReader(c, s), split || Split(s))
  {
  }

  lemma {:induction false} WholeHolds(c: Config, es: seq<Event>)
    ensures Whole(Exec(c, es), SplitBefore(c, es))
  {
    if es != [] {
      var last := |es| - 1;
      var before := es[..last];
      WholeHolds(c, before);
      WholeStep(c, Exec(c, before), es[last], SplitBefore(c, before));
      if SplitBefore(c, before) {
        var n :| 0 <= n <= |before| && Split(Exec(c, before[..n]));
        assert es[..n] == before[..n];
      } else if Split(Exec(c, before)) {
        assert es[..last] == before;
      }
    }
  }

  /** A call gets stuck only after a pending answer was split around the start of a wait. */
  lemma {:induction false} StuckOnlyAfterSplit(c: Config, es: seq<Event>)
    requires Stuck(Exec(c, es))
    ensures SplitBefore(c, es)
  {
    WholeHolds(c, es);
  }

  /** And on every run a split pending answer gets the call stuck, if the reader and the call go on at once. */
  lemma {:induction false} SplitGetsStuck(c: Config, es: seq<Event>)
    requires Split(Exec(c, es))
    ensures Stuck(Exec(c, es + [ReaderStep] + [UserStep] + [UserStep] + [UserStep]))
  {
    var es1 := es + [ReaderStep];
    var es2 := es1 + [UserStep];
    var es3 := es2 + [UserStep];
    ExecStep(c, es, ReaderStep);
    ExecStep(c, es1, UserStep);
    ExecStep(c, es2, UserStep);
    ExecStep(c, es3, UserStep);
  }

  /** With no frame to handle, a stuck call goes round its loop for ever. */
  lemma {:induction false} SpinsForever(s: State, n: nat)
    requires Stuck(s)
    ensures UserSteps(s, 2 * n) == s
  {
    if n > 0 {
      var s1 := NextUser(s);
      assert NextUser(s1) == s;
      assert UserSteps(s, 2 * n) == UserSteps(s1, 2 * n - 1) == UserSteps(s, 2 * (n - 1));
      SpinsForever(s, n - 1);
    }
  }

  /** A call in its response loop that the channel no longer waits for, with nothing recorded. */
  predicate Forsaken(s: State) {
    && (s.user.LoopTest? || s.user.LoopSwitch?)
    && s.conversation == DiagWaitForRes
    && s.channel != WaitForResponse && !MidResponse(s.reader)
  }

  lemma ForsakenStep(c: Config, s: State, e: Event)
    requires Owned(s) && Forsaken(s)
    ensures Forsaken(Next(c, s, e))
  {
  }

  /** Whatever happens, such a call never returns. */
  lemma {:induction false} ForsakenForever(c: Config, es: seq<Event>, fs: seq<Event>)
    requires Forsaken(Exec(c, es))
    ensures Forsaken(Exec(c, es + fs))
  {
    if fs == [] {
      assert es + fs == es;
    } else {
      var last := |fs| - 1;
      assert es + fs == es + fs[..last] + [fs[last]];
      ForsakenForever(c, es, fs[..last]);
      Ownership(c, es + fs[..last]);
      ForsakenStep(c, Exec(c, es + fs[..last]), fs[last]);
      ExecStep(c, es + fs[..last], fs[last]);
    }
  }

  /** A stuck call is saved by the next response exactly if the channel waits and accepts it. */
  lemma StuckUntilAccepted(c: Config, s: State, uds: seq<byte>)
    requires Stuck(s) && s.conversation == DiagWaitForRes
    ensures var t := Finish(c, Next(c, s, Arrive(ResponseFrame(uds))));
            && (Stuck(t) <==> s.channel != WaitForResponse || !(IsFinal(c, uds) || KeepsWaiting(c, uds)))
            && (Stuck(t) ==> Forsaken(t))
  {
    FinishResponse(c, Next(c, s, Arrive(ResponseFrame(uds))), uds);
  }

  /** A stuck call is reachable when a pending answer fits the buffer. */
  lemma StuckReachable(c: Config)
    requires c.rxBufferSize >= 3
    ensures exists es :: Stuck(Exec(c, es)) && Exec(c, es).channel == WaitForResponse
  {
    var es, s := ReachStuck(c);
    assert Stuck(Exec(c, es));
  }

  /** And so is one that never returns: the response that would save it does not fit the buffer. */
  lemma ForsakenReachable(c: Config)
    requires c.rxBufferSize >= 3
    ensures exists es :: Forsaken(Exec(c, es))
  {
    var es, s := ReachStuck(c);
    var uds: seq<byte> := seq(c.rxBufferSize + 1, _ => 0);
    es := Extend(c, es, s, Arrive(ResponseFrame(uds)), s.(reader := CheckWaitForResponse(uds)));
    es := Extend(c, es, s.(reader := CheckWaitForResponse(uds)), ReaderStep, s.(reader := Indicate(uds)));
    es := Extend(c, es, s.(reader := Indicate(uds)), ReaderStep, s.(reader := ReleaseChannel));
    es := Extend(c, es, s.(reader := ReleaseChannel), ReaderStep, s.(channel := ChannelIdle));
    assert Forsaken(Exec(c, es));
  }

  lemma ReachStuck(c: Config) returns (es: seq<Event>, s: State)
    requires c.rxBufferSize >= 3
    ensures Exec(c, es) == s
    ensures s == Initial.(channel := WaitForResponse, conversation := DiagWaitForRes,
                          user := LoopTest(Failed(RequestSendFailed)))
  {
    var es0, s0 := ReachPendingLost(c);
    var result := Failed(RequestSendFailed);
    es := Extend(c, es0, s0, UserStep, s0.(user := QueryFinal(result)));
    es := Extend(c, es, s0.(user := QueryFinal(result)), UserStep, s0.(user := QueryPending(result)));
    s := s0.(user := LoopTest(result));
    es := Extend(c, es, s0.(user := QueryPending(result)), UserStep, s);
  }

  /** The recorded pending answer is overwritten, and its cancellation hits the started timer. */
  lemma ReachPendingLost(c: Config) returns (es: seq<Event>, s: State)
    requires c.rxBufferSize >= 3
    ensures Exec(c, es) == s
    ensures s == Initial.(channel := WaitForResponse, conversation := DiagWaitForRes,
                          user := BlockedOnResponse(Failed(RequestSendFailed)))
  {
    var es0, s1 := ReachPendingRecorded(c);
    var result := Failed(RequestSendFailed);
    var s2 := s1.(conversation := DiagWaitForRes);
    es := Extend(c, es0, s1, UserStep, s2.(user := StartResponseTimer(result, P2)));
    var s3 := s2.(responseTimer := true, user := BlockedOnResponse(result));
    es := Extend(c, es, s2.(user := StartResponseTimer(result, P2)), UserStep, s3);
    s := s3.(responseTimer := false, reader := Listening);
    es := Extend(c, es, s3, ReaderStep, s);
  }

  /** A pending answer is recorded before the call resets the conversation, its cancellation is due. */
  lemma ReachPendingRecorded(c: Config) returns (es: seq<Event>, s: State)
    requires c.rxBufferSize >= 3
    ensures Exec(c, es) == s
    ensures s == Initial.(channel := WaitForResponse, user := ToDiagWaitForRes,
                          conversation := ReceivedPendingRes, reader := CancelAfterPending)
  {
    var es0, s0 := ReachToDiagWaitForRes(c);
    var uds: seq<byte> := [0x7F, 0x00, 0x78];
    es := Extend(c, es0, s0, Arrive(ResponseFrame(uds)), s0.(reader := CheckWaitForResponse(uds)));
    es := Extend(c, es, s0.(reader := CheckWaitForResponse(uds)), ReaderStep, s0.(reader := Indicate(uds)));
    es := Extend(c, es, s0.(reader := Indicate(uds)), ReaderStep, s0.(reader := WritePending));
    s := s0.(conversation := ReceivedPendingRes, reader := CancelAfterPending);
    es := Extend(c, es, s0.(reader := WritePending), ReaderStep, s);
  }

  /** The channel waits for a response and the call has not yet reset the conversation. */
  lemma ReachToDiagWaitForRes(c: Config) returns (es: seq<Event>, s: State)
    ensures Exec(c, es) == s
    ensures s == Initial.(channel := WaitForResponse, user := ToDiagWaitForRes)
  {
    var es0, s0 := ReachAckAccepted(c);
    var s1 := s0.(channel := PositiveAckReceived, reader := CancelAckTimer);
    es := Extend(c, es0, s0, ReaderStep, s1);
    var s2 := s1.(ackTimer := false, reader := Listening);
    es := Extend(c, es, s1, ReaderStep, s2);
    es := Extend(c, es, s2, UserStep, s2.(user := AckCancelled));
    es := Extend(c, es, s2.(user := AckCancelled), UserStep, s2.(user := ToWaitForResponse));
    s := s2.(channel := WaitForResponse, user := ToDiagWaitForRes);
    es := Extend(c, es, s2.(user := ToWaitForResponse), UserStep, s);
  }
}
