/**
 * The recursive exchange and the machine of both threads agree: what a request comes to over a timed
 * list of frames is what a run of the machine comes to.
 */
module Agreement {
  import opened DiagnosticExchange
  import opened CoarseExchange
  import opened ExchangeSafety
  import opened ResponseWindow

  // Runs from a state.

  function RunFrom(c: Config, s: State, ms: seq<Move>): State
    decreases |ms|
  {
    if ms == [] then s else RunFrom(c, CoarseNext(c, s, ms[0]), ms[1..])
  }

  /** The frames that a run handles, in order. */
  function FramesOf(ms: seq<Move>): seq<Frame> {
    if ms == [] then []
    else (if ms[0].Handle? then [ms[0].frame] else []) + FramesOf(ms[1..])
  }

  /** A run from the state that a run reaches is the rest of a longer run. */
  lemma {:induction false} RunIsExec(c: Config, ms: seq<Move>, ms': seq<Move>)
    ensures CoarseExec(c, ms + ms') == RunFrom(c, CoarseExec(c, ms), ms')
    decreases |ms'|
  {
    if ms' == [] {
      assert ms + ms' == ms;
    } else {
      assert (ms + [ms'[0]])[..|ms|] == ms;
      assert ms + ms' == (ms + [ms'[0]]) + ms'[1..];
      RunIsExec(c, ms + [ms'[0]], ms'[1..]);
    }
  }

  /** Some run leads from one state to the other, and these are the frames it handles. */
  ghost predicate Leads(c: Config, s: State, fs: seq<Frame>, t: State) {
    exists ms :: RunFrom(c, s, ms) == t && FramesOf(ms) == fs
  }

  lemma Stays(c: Config, s: State)
    ensures Leads(c, s, [], s)
  {
    assert RunFrom(c, s, []) == s && FramesOf([]) == [];
  }

  /** A move of the user thread before a run. */
  lemma First(c: Config, s: State, m: Move, s': State, fs: seq<Frame>, t: State)
    requires !m.Handle? && CoarseNext(c, s, m) == s' && Leads(c, s', fs, t)
    ensures Leads(c, s, fs, t)
  {
    var ms :| RunFrom(c, s', ms) == t && FramesOf(ms) == fs;
    assert ([m] + ms)[1..] == ms;
    assert RunFrom(c, s, [m] + ms) == t && FramesOf([m] + ms) == fs;
  }

  /** A step of the user thread before a run that handles no frame. */
  lemma Own(c: Config, s: State, s': State, t: State)
    requires NextUser(s) == s' && Leads(c, s', [], t)
    ensures Leads(c, s, [], t)
  {
    First(c, s, Step, s', [], t);
  }

  /** A handled frame before a run. */
  lemma FrameFirst(c: Config, s: State, f: Frame, fs: seq<Frame>, t: State)
    requires s.reader == Listening && Leads(c, Handled(c, s, f), fs, t)
    ensures Leads(c, s, [f] + fs, t)
  {
    HandleEffect(c, s, f);
    var ms :| RunFrom(c, Handled(c, s, f), ms) == t && FramesOf(ms) == fs;
    var m := Handle(f);
    assert ([m] + ms)[1..] == ms;
    assert RunFrom(c, s, [m] + ms) == t && FramesOf([m] + ms) == [f] + fs;
  }

  lemma {:induction false} Joined(c: Config, s: State, ms: seq<Move>, ms': seq<Move>)
    ensures RunFrom(c, s, ms + ms') == RunFrom(c, RunFrom(c, s, ms), ms')
    ensures FramesOf(ms + ms') == FramesOf(ms) + FramesOf(ms')
    decreases |ms|
  {
    if ms == [] {
      assert ms + ms' == ms';
    } else {
      assert (ms + ms')[1..] == ms[1..] + ms';
      Joined(c, CoarseNext(c, s, ms[0]), ms[1..], ms');
    }
  }

  lemma Then(c: Config, s: State, fs: seq<Frame>, t: State, fs': seq<Frame>, t': State)
    requires Leads(c, s, fs, t) && Leads(c, t, fs', t')
    ensures Leads(c, s, fs + fs', t')
  {
    var ms :| RunFrom(c, s, ms) == t && FramesOf(ms) == fs;
    var ms' :| RunFrom(c, t, ms') == t' && FramesOf(ms') == fs';
    Joined(c, s, ms, ms');
    assert RunFrom(c, s, ms + ms') == t' && FramesOf(ms + ms') == fs + fs';
  }

  function Arrived(arrivals: seq<Arrival>): seq<Frame> {
    if arrivals == [] then [] else [arrivals[0].frame] + Arrived(arrivals[1..])
  }

  lemma FirstArrived(arrivals: seq<Arrival>, fs: seq<Frame>, rest: seq<Arrival>)
    requires arrivals != [] && fs + Arrived(rest) == Arrived(arrivals[1..])
    ensures [arrivals[0].frame] + fs + Arrived(rest) == Arrived(arrivals)
  {
    assert [arrivals[0].frame] + fs + Arrived(rest) == [arrivals[0].frame] + (fs + Arrived(rest));
  }

  // The response loop.

  /** The call is blocked on its response timer and nothing is recorded. */
  predicate Blocked(s: State) {
    && s.reader == Listening && s.user.BlockedOnResponse? && s.responseTimer
    && s.conversation in {DiagWaitForRes, StartP2StarTimer}
  }

  function Finished(s: State, outcome: Outcome): State {
    s.(user := Returned(outcome), conversation := ConversationIdle)
  }

  lemma TimesOut(c: Config, s: State)
    requires Blocked(s)
    ensures Leads(c, s, [], Finished(s, Failed(ResponseTimeout)))
  {
    var t := Finished(s, Failed(ResponseTimeout));
    var s1 := s.(user := ResponseTimedOut(s.user.result));
    var s2 := s.(user := LoopTest(Failed(ResponseTimeout)), conversation := ConversationIdle);
    Stays(c, t);
    Own(c, s2, t, t);
    Own(c, s1, s2, t);
    First(c, s, Expire, s1, [], t);
  }

  /** From a seen cancellation to the test of the loop. */
  lemma ToLoop(c: Config, s: State, t: State)
    requires s.reader == Listening && s.user.BlockedOnResponse? && !s.responseTimer
    requires s.conversation != ReceivedFinalRes
    requires Leads(c, if s.conversation == ReceivedPendingRes then s.(user := ToStartP2Star(s.user.result))
                      else s.(user := LoopTest(s.user.result)), [], t)
    ensures Leads(c, s, [], t)
  {
    var r := s.user.result;
    var s3 := if s.conversation == ReceivedPendingRes then s.(user := ToStartP2Star(r)) else s.(user := LoopTest(r));
    Own(c, s.(user := QueryPending(r)), s3, t);
    Own(c, s.(user := QueryFinal(r)), s.(user := QueryPending(r)), t);
    Own(c, s, s.(user := QueryFinal(r)), t);
  }

  /** A call that sees a pending answer blocks again. */
  lemma BlocksAgain(c: Config, s: State)
    requires s.reader == Listening && s.user.BlockedOnResponse? && !s.responseTimer
    requires s.conversation == ReceivedPendingRes
    ensures Leads(c, s, [], s.(responseTimer := true, conversation := StartP2StarTimer))
  {
    var r := s.user.result;
    var t := s.(responseTimer := true, conversation := StartP2StarTimer);
    var s2 := s.(conversation := StartP2StarTimer);
    StartsAgain(c, s2.(user := LoopTest(r)));
    assert Leads(c, s2.(user := LoopTest(r)), [], t);
    Own(c, s.(user := ToStartP2Star(r)), s2.(user := LoopTest(r)), t);
    ToLoop(c, s, t);
  }

  lemma StartsAgain(c: Config, s: State)
    requires s.reader == Listening && s.user.LoopTest? && s.conversation == StartP2StarTimer
    ensures Leads(c, s, [], s.(user := BlockedOnResponse(s.user.result), responseTimer := true))
  {
    var r := s.user.result;
    var t := s.(user := BlockedOnResponse(r), responseTimer := true);
    Starts(c, s.(user := StartResponseTimer(r, P2Star)));
    Own(c, s.(user := LoopSwitch(r)), s.(user := StartResponseTimer(r, P2Star)), t);
    Own(c, s, s.(user := LoopSwitch(r)), t);
  }

  lemma Starts(c: Config, s: State)
    requires s.user.StartResponseTimer?
    ensures Leads(c, s, [], s.(user := BlockedOnResponse(s.user.result), responseTimer := true))
  {
    var t := s.(user := BlockedOnResponse(s.user.result), responseTimer := true);
    Stays(c, t);
    Own(c, s, t, t);
  }

  /** A call that sees its final response returns it. */
  lemma Returns(c: Config, s: State)
    requires s.reader == Listening && s.user.BlockedOnResponse? && !s.responseTimer
    requires s.conversation == DiagSuccess
    ensures Leads(c, s, [], Finished(s, Response))
  {
    var r := s.user.result;
    var t := Finished(s, Response);
    Emplaces(c, s.(user := EmplaceValue(r)));
    assert Finished(s.(user := EmplaceValue(r)), Response) == t;
    Own(c, s.(user := LoopSwitch(r)), s.(user := EmplaceValue(r)), t);
    Own(c, s.(user := LoopTest(r)), s.(user := LoopSwitch(r)), t);
    ToLoop(c, s, t);
  }

  lemma Emplaces(c: Config, s: State)
    requires s.reader == Listening && s.user.EmplaceValue?
    ensures Leads(c, s, [], Finished(s, Response))
  {
    var t := Finished(s, Response);
    var s2 := s.(user := LoopTest(Response), conversation := ConversationIdle);
    Leaves(c, s2);
    Own(c, s.(user := ToConversationIdle(Response)), s2, t);
    Own(c, s, s.(user := ToConversationIdle(Response)), t);
  }

  lemma Leaves(c: Config, s: State)
    requires s.user.LoopTest? && s.conversation == ConversationIdle
    ensures Leads(c, s, [], Finished(s, s.user.result))
  {
    var t := Finished(s, s.user.result);
    Stays(c, t);
    Own(c, s, t, t);
  }

  /** Frames that come to an idle channel are handled and change nothing. */
  lemma {:induction false} Ignores(c: Config, s: State, now: nat, expiry: nat, arrivals: seq<Arrival>)
    returns (fs: seq<Frame>)
    requires s.reader == Listening && s.channel == ChannelIdle
    ensures Leads(c, s, fs, s) && fs + Arrived(Ignore(now, expiry, arrivals)) == Arrived(arrivals)
    decreases |arrivals|
  {
    if Expires(now, expiry, arrivals) {
      fs := [];
      Stays(c, s);
    } else {
      fs := Ignores(c, s, Later(now, arrivals[0].at), expiry, arrivals[1..]);
      FirstArrived(arrivals, fs, Ignore(now, expiry, arrivals));
      FrameFirst(c, s, arrivals[0].frame, fs, s);
      fs := [arrivals[0].frame] + fs;
    }
  }

  lemma Refuses(c: Config, s: State, now: nat, expiry: nat, arrivals: seq<Arrival>) returns (fs: seq<Frame>)
    requires Blocked(s) && s.channel == ChannelIdle
    ensures Leads(c, s, fs, Finished(s, Failed(ResponseTimeout)))
    ensures fs + Arrived(Ignore(now, expiry, arrivals)) == Arrived(arrivals)
  {
    fs := Ignores(c, s, now, expiry, arrivals);
    TimesOut(c, s);
    Then(c, s, fs, s, [], Finished(s, Failed(ResponseTimeout)));
    assert fs + [] == fs;
  }

  /** The recursive wait is what a run of the machine does, from any blocked call. */
  lemma {:induction false} AwaitIsRun(c: Settings, s: State, now: nat, expiry: nat, arrivals: seq<Arrival>)
    returns (fs: seq<Frame>, t: State)
    requires Blocked(s) && s.channel == WaitForResponse
    ensures var a := Await(c, now, expiry, s.buffer, arrivals);
            && Leads(c.buffer, s, fs, t) && fs + Arrived(a.rest) == Arrived(arrivals)
            && t == Finished(t, a.outcome) && t.channel == a.channel && t.buffer == a.buffer
    decreases |arrivals|
  {
    if Expires(now, expiry, arrivals) {
      fs, t := [], Finished(s, Failed(ResponseTimeout));
      TimesOut(c.buffer, s);
    } else {
      fs, t := AwaitFrame(c, s, now, expiry, arrivals);
      FirstArrived(arrivals, fs, Await(c, now, expiry, s.buffer, arrivals).rest);
      FrameFirst(c.buffer, s, arrivals[0].frame, fs, t);
      fs := [arrivals[0].frame] + fs;
    }
  }

  /** The rest of the wait once its first frame is handled. */
  lemma {:induction false} AwaitFrame(c: Settings, s: State, now: nat, expiry: nat, arrivals: seq<Arrival>)
    returns (fs: seq<Frame>, t: State)
    requires Blocked(s) && s.channel == WaitForResponse && !Expires(now, expiry, arrivals)
    ensures var a := Await(c, now, expiry, s.buffer, arrivals);
            && Leads(c.buffer, Handled(c.buffer, s, arrivals[0].frame), fs, t)
            && fs + Arrived(a.rest) == Arrived(arrivals[1..])
            && t == Finished(t, a.outcome) && t.channel == a.channel && t.buffer == a.buffer
    decreases |arrivals|, 0
  {
    var at, f, rest := Later(now, arrivals[0].at), arrivals[0].frame, arrivals[1..];
    var s' := Handled(c.buffer, s, f);
    if f.AckFrame? {
      fs, t := AwaitIsRun(c, s', at, expiry, rest);
    } else if IsFinal(c.buffer, f.uds) {
      fs, t := [], Finished(s', Response);
      Returns(c.buffer, s');
    } else if KeepsWaiting(c.buffer, f.uds) {
      var s2 := s'.(responseTimer := true, conversation := StartP2StarTimer);
      BlocksAgain(c.buffer, s');
      fs, t := AwaitIsRun(c, s2, at, at + c.p2Star, rest);
      Then(c.buffer, s', [], s2, fs, t);
      assert [] + fs == fs;
    } else {
      fs := Refuses(c.buffer, s', at, expiry, rest);
      t := Finished(s', Failed(ResponseTimeout));
    }
  }

  // The handshake.

  /** What the end of the acknowledgement wait leaves of the state. */
  function Acknowledged(s: State, a: Answer, ackTimer: bool): State {
    s.(channel := a.channel, ackTimer := ackTimer,
       user := if a.outcome == Response then ToDiagWaitForRes else Returned(a.outcome))
  }

  lemma AckExpires(c: Config, s: State)
    requires s.reader == Listening && s.user == BlockedOnAck
    ensures Leads(c, s, [], s.(channel := ChannelIdle, user := Returned(Failed(AckTimeout))))
  {
    var t := s.(channel := ChannelIdle, user := Returned(Failed(AckTimeout)));
    Stays(c, t);
    Own(c, s.(user := AckTimedOut), t, t);
    First(c, s, Expire, s.(user := AckTimedOut), [], t);
  }

  lemma AckSeen(c: Config, s: State)
    requires s.reader == Listening && s.user == BlockedOnAck && !s.ackTimer
    ensures Leads(c, s, [],
                  if s.channel == PositiveAckReceived then s.(channel := WaitForResponse, user := ToDiagWaitForRes)
                  else s.(channel := ChannelIdle, user := Returned(Failed(NegAckReceived))))
  {
    var positive := s.channel == PositiveAckReceived;
    var t := if positive then s.(channel := WaitForResponse, user := ToDiagWaitForRes)
             else s.(channel := ChannelIdle, user := Returned(Failed(NegAckReceived)));
    var s2 := s.(user := if positive then ToWaitForResponse else AckRefused);
    Stays(c, t);
    Own(c, s2, t, t);
    Own(c, s.(user := AckCancelled), s2, t);
    Own(c, s, s.(user := AckCancelled), t);
  }

  /** The recursive wait for an acknowledgement, as a run to the end of the call or to its response loop. */
  lemma {:induction false} AwaitAckIsRun(c: Config, s: State, now: nat, expiry: nat, arrivals: seq<Arrival>)
    returns (fs: seq<Frame>, ackTimer: bool)
    requires s.reader == Listening && s.user == BlockedOnAck && s.channel == WaitForAck && s.ackTimer
    ensures var a := AwaitAck(now, expiry, s.buffer, arrivals);
            && fs + Arrived(a.rest) == Arrived(arrivals)
            && Leads(c, s, fs, Acknowledged(s, a, ackTimer))
    decreases |arrivals|
  {
    var a := AwaitAck(now, expiry, s.buffer, arrivals);
    if Expires(now, expiry, arrivals) {
      fs, ackTimer := [], s.ackTimer;
      AckExpires(c, s);
      assert Acknowledged(s, a, ackTimer) == s.(channel := ChannelIdle, user := Returned(Failed(AckTimeout)));
    } else {
      var fs', timer := AwaitAckFrame(c, s, now, expiry, arrivals);
      fs, ackTimer := [arrivals[0].frame] + fs', timer;
      FirstArrived(arrivals, fs', a.rest);
      FrameFirst(c, s, arrivals[0].frame, fs', Acknowledged(s, a, ackTimer));
    }
  }

  /** The rest of that wait once its first frame is handled. */
  lemma {:induction false} AwaitAckFrame(c: Config, s: State, now: nat, expiry: nat, arrivals: seq<Arrival>)
    returns (fs: seq<Frame>, ackTimer: bool)
    requires s.reader == Listening && s.user == BlockedOnAck && s.channel == WaitForAck && s.ackTimer
    requires !Expires(now, expiry, arrivals)
    ensures var a := AwaitAck(now, expiry, s.buffer, arrivals);
            && fs + Arrived(a.rest) == Arrived(arrivals[1..])
            && Leads(c, Handled(c, s, arrivals[0].frame), fs, Acknowledged(s, a, ackTimer))
    decreases |arrivals|, 0
  {
    var f, rest := arrivals[0].frame, arrivals[1..];
    if f.ResponseFrame? {
      assert Handled(c, s, f) == s;
      fs, ackTimer := AwaitAckIsRun(c, s, Later(now, arrivals[0].at), expiry, rest);
    } else {
      fs, ackTimer := [], false;
      AckSeen(c, Handled(c, s, f));
    }
  }

  lemma EntersLoop(c: Config, s: State)
    requires s.reader == Listening && s.user == ToDiagWaitForRes
    ensures Leads(c, s, [], s.(conversation := DiagWaitForRes, responseTimer := true,
                               user := BlockedOnResponse(Failed(RequestSendFailed))))
  {
    var r := Failed(RequestSendFailed);
    var s1 := s.(conversation := DiagWaitForRes, user := StartResponseTimer(r, P2));
    var t := s.(conversation := DiagWaitForRes, responseTimer := true, user := BlockedOnResponse(r));
    Stays(c, t);
    Own(c, s1, t, t);
    Own(c, s, s1, t);
  }

  lemma Begins(c: Config, s: State)
    requires s.reader == Listening && !InCall(s.user) && s.channel == ChannelIdle
    ensures Leads(c, s, [], s.(channel := WaitForAck, ackTimer := true, user := BlockedOnAck))
  {
    var t := s.(channel := WaitForAck, ackTimer := true, user := BlockedOnAck);
    var s1 := s.(channel := WaitForAck, user := StartAckTimer);
    Stays(c, t);
    Own(c, s1, t, t);
    Own(c, s.(user := ToWaitForAck), s1, t);
    First(c, s.(user := WriteRequest), Written(true), s.(user := ToWaitForAck), [], t);
    Own(c, s.(user := CheckIdle), s.(user := WriteRequest), t);
    First(c, s, Begin(true, true), s.(user := CheckIdle), [], t);
  }

  /**
   * The answer of the recursive exchange is what a run of the machine comes to: from every state between
   * calls with an idle channel, handling exactly the frames that the exchange takes, in their order.
   */
  lemma {:induction false} ExchangeIsRun(c: Settings, before: seq<Move>, now: nat, arrivals: seq<Arrival>)
    returns (fs: seq<Frame>, t: State)
    requires var s := CoarseExec(c.buffer, before); !InCall(s.user) && s.channel == ChannelIdle
    ensures var s := CoarseExec(c.buffer, before);
            var a := Exchange(c, now, s.buffer, arrivals);
            && Leads(c.buffer, s, fs, t) && fs + Arrived(a.rest) == Arrived(arrivals)
            && t.user == Returned(a.outcome) && t.channel == a.channel && t.buffer == a.buffer
  {
    CoarseIsFine(c.buffer, before);
    fs, t := CallIsRun(c, CoarseExec(c.buffer, before), now, arrivals);
  }

  lemma CallIsRun(c: Settings, s: State, now: nat, arrivals: seq<Arrival>) returns (fs: seq<Frame>, t: State)
    requires s.reader == Listening && !InCall(s.user) && s.channel == ChannelIdle
    ensures var a := Exchange(c, now, s.buffer, arrivals);
            && Leads(c.buffer, s, fs, t) && fs + Arrived(a.rest) == Arrived(arrivals)
            && t.user == Returned(a.outcome) && t.channel == a.channel && t.buffer == a.buffer
  {
    fs, t := HandshakeIsRun(c.buffer, s, now, arrivals);
    if t.user == ToDiagWaitForRes {
      var ack := AwaitAck(now, now + ACK_TIMEOUT, s.buffer, arrivals);
      var fs', t' := LoopIsRun(c, t, ack.end, ack.rest);
      Then(c.buffer, s, fs, t, fs', t');
      fs, t := fs + fs', t';
    }
  }

  lemma HandshakeIsRun(c: Config, s: State, now: nat, arrivals: seq<Arrival>) returns (fs: seq<Frame>, t: State)
    requires s.reader == Listening && !InCall(s.user) && s.channel == ChannelIdle
    ensures var a := AwaitAck(now, now + ACK_TIMEOUT, s.buffer, arrivals);
            && Leads(c, s, fs, t) && fs + Arrived(a.rest) == Arrived(arrivals)
            && t.user == (if a.outcome == Response then ToDiagWaitForRes else Returned(a.outcome))
            && t.channel == a.channel && t.buffer == s.buffer == a.buffer && t.reader == Listening
            && (a.outcome == Response ==> t.channel == WaitForResponse)
  {
    AckChannel(now, now + ACK_TIMEOUT, s.buffer, arrivals);
    var s1 := s.(channel := WaitForAck, ackTimer := true, user := BlockedOnAck);
    Begins(c, s);
    var ackTimer;
    fs, ackTimer := AwaitAckIsRun(c, s1, now, now + ACK_TIMEOUT, arrivals);
    t := Acknowledged(s1, AwaitAck(now, now + ACK_TIMEOUT, s.buffer, arrivals), ackTimer);
    Then(c, s, [], s1, fs, t);
    assert [] + fs == fs;
  }

  lemma LoopIsRun(c: Settings, s: State, now: nat, arrivals: seq<Arrival>) returns (fs: seq<Frame>, t: State)
    requires s.reader == Listening && s.user == ToDiagWaitForRes && s.channel == WaitForResponse
    ensures var a := Await(c, now, now + c.p2, s.buffer, arrivals);
            && Leads(c.buffer, s, fs, t) && fs + Arrived(a.rest) == Arrived(arrivals)
            && t.user == Returned(a.outcome) && t.channel == a.channel && t.buffer == a.buffer
  {
    var s1 := s.(conversation := DiagWaitForRes, responseTimer := true,
                 user := BlockedOnResponse(Failed(RequestSendFailed)));
    EntersLoop(c.buffer, s);
    fs, t := AwaitIsRun(c, s1, now, now + c.p2, arrivals);
    Then(c.buffer, s, [], s1, fs, t);
    assert [] + fs == fs;
  }

  /** The requests that are refused before any frame matters, with their errors. */
  lemma {:induction false} RefusalIsRun(c: Config, before: seq<Move>)
    requires !InCall(CoarseExec(c, before).user)
    ensures var s := CoarseExec(c, before);
            && CoarseNext(c, s, Begin(false, true)).user == Returned(Failed(InvalidParameter))
            && CoarseNext(c, s, Begin(true, false)).user == Returned(Failed(RequestSendFailed))
            && (s.channel != ChannelIdle ==>
                  Leads(c, s.(user := CheckIdle), [], s.(user := Returned(Failed(BusyProcessing)))))
            && (s.channel == ChannelIdle ==>
                  Leads(c, s.(user := WriteRequest), [], s.(user := Returned(Failed(RequestSendFailed)))))
  {
    var s := CoarseExec(c, before);
    if s.channel == ChannelIdle {
      var t := s.(user := Returned(Failed(RequestSendFailed)));
      Stays(c, t);
      Own(c, s.(user := WriteFailed), t, t);
      First(c, s.(user := WriteRequest), Written(false), s.(user := WriteFailed), [], t);
    } else {
      var t := s.(user := Returned(Failed(BusyProcessing)));
      Stays(c, t);
      Own(c, s.(user := CheckIdle), t, t);
    }
  }
}
