/**
 * What a call comes to once its final response has been handled, when frames are handled as a whole:
 * the response is returned, or it is lost and the call times out.
 */
module FinalResponse {
  import opened Bytes
  import opened DiagnosticExchange
  import opened ExchangeSafety
  import opened CoarseExchange

  // The rest of a call.

  /** The user thread's next move when no more frames come. A cancelled timer is seen before it expires. */
  function OwnMove(s: State): Move {
    match s.user
    case WriteRequest => Written(true)
    case BlockedOnAck => if s.ackTimer then Expire else Step
    case BlockedOnResponse(_) => if s.responseTimer then Expire else Step
    case _ => Step
  }

  /** How a call ends, and how long the response timers it starts on the way can block it. */
  datatype Ending = Ending(state: State, blocked: nat)

  lemma OwnMoveWorks(c: Config, s: State)
    requires s.reader == Listening && Regular(s) && InCall(s.user)
    ensures var t := CoarseNext(c, s, OwnMove(s));
            t.reader == Listening && Regular(t) && Work(t) < Work(s)
  {
    WorkStep(c, s, OwnMove(s));
    RegularStep(c, s, OwnMove(s));
  }

  /** The call goes on alone until it returns. */
  function Alone(c: Config, w: Windows, s: State): Ending
    requires s.reader == Listening && Regular(s)
    decreases Work(s)
  {
    if !InCall(s.user) then Ending(s, 0)
    else
      OwnMoveWorks(c, s);
      var rest := Alone(c, w, CoarseNext(c, s, OwnMove(s)));
      rest.(blocked := rest.blocked + Started(w, s, OwnMove(s)))
  }

  lemma AloneStep(c: Config, w: Windows, s: State)
    requires s.reader == Listening && Regular(s) && InCall(s.user)
    ensures var t := CoarseNext(c, s, OwnMove(s));
            && t.reader == Listening && Regular(t)
            && Alone(c, w, s).state == Alone(c, w, t).state
            && Alone(c, w, s).blocked == Alone(c, w, t).blocked + Started(w, s, OwnMove(s))
  {
    OwnMoveWorks(c, s);
  }

  // Where a recorded response is found, and where it is not.

  /** The call is in its response loop, or about to enter it. */
  predicate InLoop(u: User) {
    || u.ToDiagWaitForRes? || u.StartResponseTimer? || u.BlockedOnResponse? || u.ResponseTimedOut?
    || u.QueryFinal? || u.QueryPending? || u.ToStartP2Star? || u.LoopTest? || u.LoopSwitch?
  }

  /**
   * The call next overwrites what is recorded, or starts a timer whose cancellation has already come:
   * before the P2 wait, before a P2* wait that was decided on, and after an expiry that was seen.
   */
  predicate Misses(u: User) {
    u.ToDiagWaitForRes? || u.StartResponseTimer? || u.ResponseTimedOut? || u.ToStartP2Star?
  }

  /** The window that a call which misses its response still waits through. */
  function MissedWindow(w: Windows, u: User): nat {
    match u
    case ToDiagWaitForRes => w.p2
    case StartResponseTimer(_, window) => Length(w, window)
    case ToStartP2Star(_) => w.p2Star
    case _ => 0
  }

  /** A recorded success that the call finds. */
  predicate Finds(s: State) {
    && s.conversation == DiagSuccess
    && (s.user.QueryFinal? || s.user.QueryPending? || s.user.LoopTest? || s.user.LoopSwitch?
        || (s.user.BlockedOnResponse? && !s.responseTimer))
  }

  lemma EmplacedReturns(c: Config, w: Windows, s: State)
    requires s.reader == Listening && Regular(s)
    requires s.user.EmplaceValue? || s.user.ToConversationIdle?
             || (s.user == LoopTest(Response) && s.conversation == ConversationIdle)
    ensures Alone(c, w, s) == Ending(s.(user := Returned(Response), conversation := ConversationIdle), 0)
    decreases Work(s)
  {
    AloneStep(c, w, s);
    WorkStep(c, s, OwnMove(s));
    if !s.user.LoopTest? { EmplacedReturns(c, w, CoarseNext(c, s, OwnMove(s))); }
  }

  lemma FindsReturns(c: Config, w: Windows, s: State)
    requires s.reader == Listening && Regular(s) && Finds(s)
    ensures Alone(c, w, s) == Ending(s.(user := Returned(Response), conversation := ConversationIdle), 0)
    decreases Work(s)
  {
    AloneStep(c, w, s);
    var t := CoarseNext(c, s, OwnMove(s));
    if s.user.LoopSwitch? {
      EmplacedReturns(c, w, t);
    } else {
      WorkStep(c, s, OwnMove(s));
      FindsReturns(c, w, t);
    }
  }

  /** A call blocked on a timer that nothing will cancel, or past its expiry. */
  predicate Expired(s: State) {
    (s.user.BlockedOnResponse? && s.responseTimer) || s.user.ResponseTimedOut?
  }

  lemma ExpiredTimesOut(c: Config, w: Windows, s: State)
    requires s.reader == Listening && Regular(s) && Expired(s)
    ensures Alone(c, w, s) == Ending(s.(user := Returned(Failed(ResponseTimeout)), conversation := ConversationIdle), 0)
    decreases Work(s)
  {
    AloneStep(c, w, s);
    var t := CoarseNext(c, s, OwnMove(s));
    if s.user.ResponseTimedOut? {
      AloneStep(c, w, t);
    } else {
      WorkStep(c, s, OwnMove(s));
      ExpiredTimesOut(c, w, t);
    }
  }

  /** From a decision to wait again, or a start of a timer, the call waits one window and times out. */
  lemma WindowTimesOut(c: Config, w: Windows, s: State)
    requires s.reader == Listening && Regular(s)
    requires s.user.ToDiagWaitForRes? || s.user.StartResponseTimer? || s.user.ToStartP2Star?
             || (s.conversation == StartP2StarTimer && (s.user.LoopTest? || s.user.LoopSwitch?))
    ensures var e := Alone(c, w, s);
            && e.state.user == Returned(Failed(ResponseTimeout))
            && e.state.buffer == s.buffer && e.state.channel == s.channel
            && e.blocked == if s.user.LoopTest? || s.user.LoopSwitch? then w.p2Star else MissedWindow(w, s.user)
    decreases Work(s)
  {
    AloneStep(c, w, s);
    var t := CoarseNext(c, s, OwnMove(s));
    WorkStep(c, s, OwnMove(s));
    if s.user.StartResponseTimer? {
      ExpiredTimesOut(c, w, t);
    } else {
      WindowTimesOut(c, w, t);
    }
  }

  // A response that is final.

  lemma FinalResponseAt(c: Config, w: Windows, s: State, uds: seq<byte>)
    requires s.reader == Listening && Regular(s) && InLoop(s.user)
    requires s.channel == WaitForResponse && IsFinal(c, uds)
    ensures var t := CoarseNext(c, s, Handle(ResponseFrame(uds)));
            && t.reader == Listening && Regular(t)
            && var e := Alone(c, w, t);
               && e.state.user == Returned(if Misses(s.user) then Failed(ResponseTimeout) else Response)
               && e.state.buffer == uds && e.state.channel == ChannelIdle
               && e.blocked == MissedWindow(w, s.user)
  {
    HandleEffect(c, s, ResponseFrame(uds));
    RegularStep(c, s, Handle(ResponseFrame(uds)));
    var t := CoarseNext(c, s, Handle(ResponseFrame(uds)));
    if s.user.ResponseTimedOut? {
      ExpiredTimesOut(c, w, t);
    } else if Misses(s.user) {
      WindowTimesOut(c, w, t);
    } else {
      FindsReturns(c, w, t);
    }
  }

  function ResultSoFar(u: User): Outcome
    requires InLoop(u)
  {
    if u.ToDiagWaitForRes? then Failed(RequestSendFailed) else u.result
  }

  /** The run's call waits for a response, and the channel with it. */
  predicate Waits(s: State) {
    InCall(s.user) && s.user != CheckIdle && s.channel == WaitForResponse
  }

  lemma {:induction false} WaitsInLoop(c: Config, ms: seq<Move>)
    requires Waits(CoarseExec(c, ms))
    ensures var s := CoarseExec(c, ms);
            && s.reader == Listening && Regular(s) && InLoop(s.user)
            && (s.user != ToDiagWaitForRes ==> s.conversation != DiagSuccess)
            && ResultSoFar(s.user) != Response
  {
    CoarseIsFine(c, ms);
    RegularHolds(c, ms);
    EmplacingIsQuiet(c, ms);
    var es :| Exec(c, es) == CoarseExec(c, ms);
    FactsHold(c, es);
  }

  /**
   * On every run: a final response that is handled while a call waits for it is returned exactly if the
   * call was not about to overwrite what is recorded or to start a timer. Otherwise it is lost: the
   * call waits through the window it was about to open, if any, and times out.
   */
  lemma {:induction false} FinalResponseReturned(c: Config, w: Windows, ms: seq<Move>, uds: seq<byte>)
    requires Waits(CoarseExec(c, ms))
    requires 0 < |uds| <= c.rxBufferSize && !(|uds| >= 3 && uds[0] == 0x7F && uds[2] == 0x78)
    ensures var s, t := CoarseExec(c, ms), CoarseExec(c, ms + [Handle(ResponseFrame(uds))]);
            && t.reader == Listening && Regular(t)
            && var e := Alone(c, w, t);
               && (e.state.user == Returned(Response) <==> !Misses(s.user))
               && (e.state.user == Returned(Failed(ResponseTimeout)) <==> Misses(s.user))
               && e.state.buffer == uds && e.state.channel == ChannelIdle
               && e.blocked == MissedWindow(w, s.user)
  {
    WaitsInLoop(c, ms);
    FinalResponseAt(c, w, CoarseExec(c, ms), uds);
    assert (ms + [Handle(ResponseFrame(uds))])[..|ms|] == ms;
  }

  /** If the blocked call sees its timer expire before it sees the cancellation, the response is lost too. */
  lemma {:induction false} ExpirySeenFirst(c: Config, w: Windows, ms: seq<Move>, uds: seq<byte>)
    requires Waits(CoarseExec(c, ms)) && CoarseExec(c, ms).user.BlockedOnResponse?
    requires 0 < |uds| <= c.rxBufferSize && !(|uds| >= 3 && uds[0] == 0x7F && uds[2] == 0x78)
    ensures var t := CoarseExec(c, ms + [Handle(ResponseFrame(uds)), Expire]);
            && t.reader == Listening && Regular(t)
            && Alone(c, w, t).state.user == Returned(Failed(ResponseTimeout))
  {
    var s := CoarseExec(c, ms);
    WaitsInLoop(c, ms);
    HandleEffect(c, s, ResponseFrame(uds));
    var run := ms + [Handle(ResponseFrame(uds))];
    assert run[..|ms|] == ms;
    assert (ms + [Handle(ResponseFrame(uds)), Expire])[..|run|] == run;
    var t := CoarseExec(c, ms + [Handle(ResponseFrame(uds)), Expire]);
    RegularHolds(c, run);
    RegularStep(c, CoarseExec(c, run), Expire);
    ExpiredTimesOut(c, w, t);
  }

  // A response that is refused by the buffer check.

  lemma RefusedTimesOut(c: Config, w: Windows, s: State)
    requires s.reader == Listening && Regular(s) && InLoop(s.user)
    requires s.user != ToDiagWaitForRes ==> s.conversation != DiagSuccess
    requires ResultSoFar(s.user) != Response
    ensures Alone(c, w, s).state.user == Returned(Failed(ResponseTimeout))
    decreases Work(s)
  {
    AloneStep(c, w, s);
    var t := CoarseNext(c, s, OwnMove(s));
    WorkStep(c, s, OwnMove(s));
    if InCall(t.user) { RefusedTimesOut(c, w, t); }
  }

  /**
   * On every run: a response that the conversation refuses closes the channel but cancels nothing.
   * Wherever the waiting call stands, it is left to time out.
   */
  lemma {:induction false} RefusedResponse(c: Config, w: Windows, ms: seq<Move>, uds: seq<byte>)
    requires Waits(CoarseExec(c, ms)) && !(0 < |uds| <= c.rxBufferSize)
    ensures var s, t := CoarseExec(c, ms), CoarseExec(c, ms + [Handle(ResponseFrame(uds))]);
            && t == s.(channel := ChannelIdle)
            && t.reader == Listening && Regular(t)
            && Alone(c, w, t).state.user == Returned(Failed(ResponseTimeout))
  {
    WaitsInLoop(c, ms);
    var s := CoarseExec(c, ms);
    HandleEffect(c, s, ResponseFrame(uds));
    RegularStep(c, s, Handle(ResponseFrame(uds)));
    assert (ms + [Handle(ResponseFrame(uds))])[..|ms|] == ms;
    RefusedTimesOut(c, w, CoarseExec(c, ms + [Handle(ResponseFrame(uds))]));
  }

  // Calls that miss their response.

  lemma CoarseExtend(c: Config, ms: seq<Move>, s: State, m: Move, s': State) returns (ms': seq<Move>)
    requires CoarseExec(c, ms) == s && CoarseNext(c, s, m) == s'
    ensures CoarseExec(c, ms') == s'
  {
    ms' := ms + [m];
    assert ms'[..|ms|] == ms;
  }

  lemma ReachAckWait(c: Config) returns (ms: seq<Move>, s: State)
    ensures CoarseExec(c, ms) == s
    ensures s == Initial.(channel := WaitForAck, ackTimer := true, user := BlockedOnAck)
  {
    var s0 := Initial;
    ms := CoarseExtend(c, [], s0, Begin(true, true), s0.(user := CheckIdle));
    ms := CoarseExtend(c, ms, s0.(user := CheckIdle), Step, s0.(user := WriteRequest));
    ms := CoarseExtend(c, ms, s0.(user := WriteRequest), Written(true), s0.(user := ToWaitForAck));
    var s1 := s0.(channel := WaitForAck, user := StartAckTimer);
    ms := CoarseExtend(c, ms, s0.(user := ToWaitForAck), Step, s1);
    s := s1.(ackTimer := true, user := BlockedOnAck);
    ms := CoarseExtend(c, ms, s1, Step, s);
  }

  lemma ReachAcknowledged(c: Config) returns (ms: seq<Move>, s: State)
    ensures CoarseExec(c, ms) == s
    ensures s == Initial.(channel := PositiveAckReceived, user := BlockedOnAck)
  {
    var ms0, s0 := ReachAckWait(c);
    var ack := AckFrame(0x8002, 0x00);
    s := s0.(channel := PositiveAckReceived, ackTimer := false);
    assert CoarseNext(c, s0, Handle(ack)) == s by { HandleEffect(c, s0, ack); }
    ms := CoarseExtend(c, ms0, s0, Handle(ack), s);
  }

  lemma ReachWait(c: Config) returns (ms: seq<Move>, s: State)
    ensures CoarseExec(c, ms) == s
    ensures s == Initial.(channel := WaitForResponse, user := ToDiagWaitForRes)
  {
    var ms3, s3 := ReachAcknowledged(c);
    ms := CoarseExtend(c, ms3, s3, Step, s3.(user := AckCancelled));
    ms := CoarseExtend(c, ms, s3.(user := AckCancelled), Step, s3.(user := ToWaitForResponse));
    s := s3.(channel := WaitForResponse, user := ToDiagWaitForRes);
    ms := CoarseExtend(c, ms, s3.(user := ToWaitForResponse), Step, s);
  }

  lemma ReachBlocked(c: Config) returns (ms: seq<Move>, s: State)
    ensures CoarseExec(c, ms) == s
    ensures s == Initial.(channel := WaitForResponse, conversation := DiagWaitForRes, responseTimer := true,
                          user := BlockedOnResponse(Failed(RequestSendFailed)))
  {
    var result := Failed(RequestSendFailed);
    var ms0, s0 := ReachWait(c);
    var s1 := s0.(conversation := DiagWaitForRes, user := StartResponseTimer(result, P2));
    ms := CoarseExtend(c, ms0, s0, Step, s1);
    s := s1.(responseTimer := true, user := BlockedOnResponse(result));
    ms := CoarseExtend(c, ms, s1, Step, s);
  }

  /** A call can be met by its response where it misses it: before its wait, and when that has expired. */
  lemma MissReachable(c: Config)
    ensures exists ms :: Waits(CoarseExec(c, ms)) && CoarseExec(c, ms).user.ToDiagWaitForRes?
    ensures exists ms :: Waits(CoarseExec(c, ms)) && CoarseExec(c, ms).user.StartResponseTimer?
    ensures exists ms :: Waits(CoarseExec(c, ms)) && CoarseExec(c, ms).user.ResponseTimedOut?
  {
    var ms0, s0 := ReachWait(c);
    assert Waits(CoarseExec(c, ms0));
    var s1 := s0.(conversation := DiagWaitForRes, user := StartResponseTimer(Failed(RequestSendFailed), P2));
    var ms1 := CoarseExtend(c, ms0, s0, Step, s1);
    assert Waits(CoarseExec(c, ms1));
    var ms2, s2 := ReachBlocked(c);
    var s3 := s2.(user := ResponseTimedOut(Failed(RequestSendFailed)));
    ms2 := CoarseExtend(c, ms2, s2, Expire, s3);
    assert Waits(CoarseExec(c, ms2));
  }

  lemma ReachPending(c: Config) returns (ms: seq<Move>, s: State)
    requires c.rxBufferSize >= 3
    ensures CoarseExec(c, ms) == s
    ensures s == Initial.(channel := WaitForResponse, conversation := ReceivedPendingRes,
                          user := BlockedOnResponse(Failed(RequestSendFailed)))
  {
    var ms0, s0 := ReachBlocked(c);
    var uds: seq<byte> := [0x7F, 0x00, 0x78];
    assert KeepsWaiting(c, uds);
    s := s0.(conversation := ReceivedPendingRes, responseTimer := false);
    assert CoarseNext(c, s0, Handle(ResponseFrame(uds))) == s by { HandleEffect(c, s0, ResponseFrame(uds)); }
    ms := CoarseExtend(c, ms0, s0, Handle(ResponseFrame(uds)), s);
  }

  /** And after a pending answer, when the call has decided on P2*, if such an answer fits the buffer. */
  lemma MissAfterPendingReachable(c: Config)
    requires c.rxBufferSize >= 3
    ensures exists ms :: Waits(CoarseExec(c, ms)) && CoarseExec(c, ms).user.ToStartP2Star?
  {
    var result := Failed(RequestSendFailed);
    var ms, s1 := ReachPending(c);
    ms := CoarseExtend(c, ms, s1, Step, s1.(user := QueryFinal(result)));
    ms := CoarseExtend(c, ms, s1.(user := QueryFinal(result)), Step, s1.(user := QueryPending(result)));
    ms := CoarseExtend(c, ms, s1.(user := QueryPending(result)), Step, s1.(user := ToStartP2Star(result)));
    assert Waits(CoarseExec(c, ms));
  }
}
