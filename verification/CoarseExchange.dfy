/**
 * The exchange when the handling of one received frame is a single step. User-thread steps stay
 * separate, and frames may be handled between any two of them. Under this grain every call ends.
 */
module CoarseExchange {
  import opened DiagnosticExchange
  import opened ExchangeSafety
  import opened ExchangeFaults
  import opened ResponseWindow

  /** A step of the user thread, its socket write or its timer; the next call; or a whole frame. */
  datatype Move =
    | Begin(validMessage: bool, routed: bool)
    | Written(ok: bool)
    | Step
    | Expire
    | Handle(frame: Frame)

  function CoarseNext(c: Config, s: State, m: Move): State {
    match m
    case Begin(valid, routed) => Next(c, s, Call(valid, routed))
    case Written(ok) => Next(c, s, WriteDone(ok))
    case Step => Next(c, s, UserStep)
    case Expire => Next(c, s, TimerExpires)
    case Handle(f) => Finish(c, Next(c, s, Arrive(f)))
  }

  function CoarseExec(c: Config, ms: seq<Move>): State {
    if ms == [] then Initial else CoarseNext(c, CoarseExec(c, ms[..|ms| - 1]), ms[|ms| - 1])
  }

  // Coarse runs are runs.

  lemma {:induction false} FinishIsRun(c: Config, es: seq<Event>)
    ensures exists es' :: Exec(c, es') == Finish(c, Exec(c, es))
    decreases Remaining(Exec(c, es).reader)
  {
    var s := Exec(c, es);
    if s.reader == Listening {
      assert Exec(c, es) == Finish(c, s);
    } else {
      ExecStep(c, es, ReaderStep);
      RemainingDecreases(c, s);
      FinishIsRun(c, es + [ReaderStep]);
    }
  }

  /** Whatever holds of every interleaving holds of every coarse run. */
  lemma {:induction false} CoarseIsFine(c: Config, ms: seq<Move>)
    ensures exists es :: Exec(c, es) == CoarseExec(c, ms)
    ensures CoarseExec(c, ms).reader == Listening && Owned(CoarseExec(c, ms))
  {
    if ms == [] {
      assert Exec(c, []) == CoarseExec(c, ms);
    } else {
      var before, m := ms[..|ms| - 1], ms[|ms| - 1];
      CoarseIsFine(c, before);
      var es :| Exec(c, es) == CoarseExec(c, before);
      MoveIsRun(c, es, CoarseExec(c, before), m);
    }
    var es :| Exec(c, es) == CoarseExec(c, ms);
    Ownership(c, es);
  }

  lemma MoveIsRun(c: Config, es: seq<Event>, s: State, m: Move)
    requires Exec(c, es) == s && s.reader == Listening
    ensures exists es' :: Exec(c, es') == CoarseNext(c, s, m)
    ensures CoarseNext(c, s, m).reader == Listening
  {
    var e := FirstEvent(m);
    ExecStep(c, es, e);
    if m.Handle? {
      FinishIsRun(c, es + [e]);
    } else {
      assert Exec(c, es + [e]) == CoarseNext(c, s, m);
    }
  }

  function FirstEvent(m: Move): Event {
    match m
    case Begin(valid, routed) => Call(valid, routed)
    case Written(ok) => WriteDone(ok)
    case Step => UserStep
    case Expire => TimerExpires
    case Handle(f) => Arrive(f)
  }

  /** What one handled frame does to the shared state. */
  function Handled(c: Config, s: State, f: Frame): State {
    match f
    case AckFrame(t, code) =>
      if s.channel == WaitForAck then s.(channel := AckState(t, code), ackTimer := false) else s
    case ResponseFrame(uds) =>
      if s.channel != WaitForResponse then s
      else if IsFinal(c, uds) then
        s.(buffer := uds, conversation := DiagSuccess, responseTimer := false, channel := ChannelIdle)
      else if KeepsWaiting(c, uds) then
        s.(conversation := ReceivedPendingRes, responseTimer := false)
      else s.(channel := ChannelIdle)
  }

  lemma HandleEffect(c: Config, s: State, f: Frame)
    requires s.reader == Listening
    ensures CoarseNext(c, s, Handle(f)) == Handled(c, s, f)
  {
    match f {
      case AckFrame(t, code) => FinishAck(c, s.(reader := CheckWaitForAck(t, code)), t, code);
      case ResponseFrame(uds) => FinishResponse(c, s.(reader := CheckWaitForResponse(uds)), uds);
    }
  }

  // The conversation state in the response loop.

  /**
   * The loop never tests its state at the initial or the half-received one, and a cancelled timer means
   * that a pending or a final response is recorded.
   */
  predicate Regular(s: State) {
    && s.conversation != ReceivedFinalRes
    && match s.user
       case StartResponseTimer(_, _) => s.conversation != ConversationIdle
       case BlockedOnResponse(_) =>
         && s.conversation != ConversationIdle
         && (!s.responseTimer ==> s.conversation in {ReceivedPendingRes, DiagSuccess})
       case QueryFinal(_) => s.conversation in {ReceivedPendingRes, DiagSuccess}
       case QueryPending(_) => s.conversation in {ReceivedPendingRes, DiagSuccess}
       case LoopTest(r) =>
         && s.conversation != DiagWaitForRes
         && (s.conversation == ConversationIdle ==> r in {Response, Failed(ResponseTimeout)})
       case LoopSwitch(_) => s.conversation in {ReceivedPendingRes, DiagSuccess, StartP2StarTimer}
       case ToConversationIdle(r) => r == Response
       case _ => true
  }

  lemma RegularStep(c: Config, s: State, m: Move)
    requires s.reader == Listening && Regular(s)
    ensures Regular(CoarseNext(c, s, m))
  {
    if m.Handle? { HandleEffect(c, s, m.frame); }
  }

  lemma {:induction false} RegularHolds(c: Config, ms: seq<Move>)
    ensures Regular(CoarseExec(c, ms))
  {
    if ms != [] {
      RegularHolds(c, ms[..|ms| - 1]);
      CoarseIsFine(c, ms[..|ms| - 1]);
      RegularStep(c, CoarseExec(c, ms[..|ms| - 1]), ms[|ms| - 1]);
    }
  }

  /** So no call spins, in contrast to finer interleavings. */
  lemma NeverSpins(c: Config, ms: seq<Move>)
    ensures !Spinning(CoarseExec(c, ms))
  {
    RegularHolds(c, ms);
  }

  // Counting within one call.

  /** Since the latest call began: milliseconds its started timers can block it, starts for P2*,
      pending answers accepted, responses accepted, and moves of the user thread that had an effect. */
  datatype Tally = Tally(blocked: nat, starStarts: nat, pending: nat, responses: nat, moves: nat)

  predicate BeginsNow(s: State, m: Move) {
    m == Begin(true, true) && !InCall(s.user)
  }

  predicate TakesPending(c: Config, s: State, m: Move) {
    m.Handle? && m.frame.ResponseFrame? && s.channel == WaitForResponse && KeepsWaiting(c, m.frame.uds)
  }

  predicate TakesResponse(c: Config, s: State, m: Move) {
    m.Handle? && m.frame.ResponseFrame? && s.channel == WaitForResponse
    && (KeepsWaiting(c, m.frame.uds) || IsFinal(c, m.frame.uds))
  }

  predicate Moves(c: Config, s: State, m: Move) {
    !m.Handle? && InCall(s.user) && CoarseNext(c, s, m) != s
  }

  /** The length of the timer that a move starts. */
  function Started(w: Windows, s: State, m: Move): nat {
    if m != Step then 0
    else match s.user
      case StartAckTimer => ACK_TIMEOUT
      case StartResponseTimer(_, window) => Length(w, window)
      case _ => 0
  }

  predicate StartsStar(s: State, m: Move) {
    m == Step && s.user.StartResponseTimer? && s.user.window == P2Star
  }

  function Count(c: Config, w: Windows, s: State, m: Move, t: Tally): Tally {
    if BeginsNow(s, m) then Tally(0, 0, 0, 0, 0)
    else
      Tally(
        t.blocked + Started(w, s, m),
        t.starStarts + if StartsStar(s, m) then 1 else 0,
        t.pending + if TakesPending(c, s, m) then 1 else 0,
        t.responses + if TakesResponse(c, s, m) then 1 else 0,
        t.moves + if Moves(c, s, m) then 1 else 0)
  }

  function TallyOf(c: Config, w: Windows, ms: seq<Move>): Tally {
    if ms == [] then Tally(0, 0, 0, 0, 0)
    else Count(c, w, CoarseExec(c, ms[..|ms| - 1]), ms[|ms| - 1], TallyOf(c, w, ms[..|ms| - 1]))
  }

  /** Starts for P2* that the state still leads to, if no more frames come. */
  function DueStars(s: State): nat {
    var pending := if s.conversation == ReceivedPendingRes then 1 else 0;
    match s.user
    case StartResponseTimer(_, window) => if window == P2Star then 1 + pending else pending
    case BlockedOnResponse(_) => pending
    case QueryFinal(_) => pending
    case QueryPending(_) => pending
    case ToStartP2Star(_) => 1
    case LoopTest(_) => if s.conversation == StartP2StarTimer then 1 else pending
    case LoopSwitch(_) => if s.conversation == StartP2StarTimer then 1 else pending
    case _ => 0
  }

  lemma StarsStep(c: Config, w: Windows, s: State, m: Move, t: Tally)
    requires s.reader == Listening && Regular(s)
    requires s.user.EmplaceValue? || s.user.ToConversationIdle? ==> s.channel != WaitForResponse
    requires t.starStarts + DueStars(s) <= t.pending
    ensures var t' := Count(c, w, s, m, t); t'.starStarts + DueStars(CoarseNext(c, s, m)) <= t'.pending
  {
    if m.Handle? { HandleEffect(c, s, m.frame); }
  }

  /** The acknowledgement timer and the P2 timer, as far as they are still to be started. */
  function DueFirst(w: Windows, u: User): nat {
    match u
    case CheckIdle => ACK_TIMEOUT + w.p2
    case WriteRequest => ACK_TIMEOUT + w.p2
    case ToWaitForAck => ACK_TIMEOUT + w.p2
    case StartAckTimer => ACK_TIMEOUT + w.p2
    case BlockedOnAck => w.p2
    case AckCancelled => w.p2
    case ToWaitForResponse => w.p2
    case ToDiagWaitForRes => w.p2
    case StartResponseTimer(_, window) => if window == P2 then w.p2 else 0
    case _ => 0
  }

  /** What the started timers add up to, but for the starts for P2*. */
  lemma BlockedStep(c: Config, w: Windows, s: State, m: Move, t: Tally, stars: nat)
    requires s.reader == Listening
    requires t.blocked + DueFirst(w, s.user) <= ACK_TIMEOUT + w.p2 + stars
    ensures !BeginsNow(s, m) ==>
              Count(c, w, s, m, t).blocked + DueFirst(w, CoarseNext(c, s, m).user)
              <= ACK_TIMEOUT + w.p2 + stars + if StartsStar(s, m) then w.p2Star else 0
    ensures BeginsNow(s, m) ==>
              Count(c, w, s, m, t) == Tally(0, 0, 0, 0, 0)
              && DueFirst(w, CoarseNext(c, s, m).user) == ACK_TIMEOUT + w.p2
  {
    if m.Handle? { HandleEffect(c, s, m.frame); }
  }

  /** Moves of the user thread until the call returns, if no more frames come and the timers expire. */
  function Work(s: State): nat {
    var pending, success := s.conversation == ReceivedPendingRes, s.conversation == DiagSuccess;
    match s.user
    case Ready => 0
    case Returned(_) => 0
    case CheckIdle => 12
    case WriteRequest => 11
    case WriteFailed => 1
    case ToWaitForAck => 10
    case StartAckTimer => 9
    case BlockedOnAck => 8
    case AckTimedOut => 1
    case AckCancelled => 7
    case AckRefused => 1
    case ToWaitForResponse => 6
    case ToDiagWaitForRes => 5
    case StartResponseTimer(_, _) => if pending then 11 else if success then 9 else 4
    case BlockedOnResponse(_) => if pending then 10 else if success then 8 else 3
    case ResponseTimedOut(_) => 2
    case QueryFinal(_) => if pending then 9 else 7
    case QueryPending(_) => if pending then 8 else 6
    case ToStartP2Star(_) => 7
    case LoopTest(_) =>
      if s.conversation == ConversationIdle then 1 else if pending then 9 else if success then 5 else 6
    case LoopSwitch(_) => if pending then 8 else if success then 4 else 5
    case EmplaceValue(_) => 3
    case ToConversationIdle(_) => 2
  }

  lemma WorkStep(c: Config, s: State, m: Move)
    requires s.reader == Listening && Regular(s)
    ensures Moves(c, s, m) ==> Work(CoarseNext(c, s, m)) < Work(s)
    ensures !Moves(c, s, m) && !BeginsNow(s, m) ==>
              Work(CoarseNext(c, s, m)) <= Work(s) + if TakesResponse(c, s, m) then 8 else 0
    ensures BeginsNow(s, m) ==> Work(CoarseNext(c, s, m)) == 12
  {
    if m.Handle? { WorkOfHandling(c, s, m.frame); }
  }

  lemma WorkOfHandling(c: Config, s: State, f: Frame)
    requires s.reader == Listening && Regular(s)
    ensures Work(CoarseNext(c, s, Handle(f))) <= Work(s) + if TakesResponse(c, s, Handle(f)) then 8 else 0
  {
    HandleEffect(c, s, f);
    var t := CoarseNext(c, s, Handle(f));
    if t.conversation == s.conversation { assert Work(t) == Work(s); }
  }

  /** A returned success keeps the channel from accepting anything before it is handed over. */
  lemma EmplacingIsQuiet(c: Config, ms: seq<Move>)
    ensures var s := CoarseExec(c, ms);
            s.user.EmplaceValue? || s.user.ToConversationIdle? ==> s.channel != WaitForResponse
  {
    CoarseIsFine(c, ms);
    var es :| Exec(c, es) == CoarseExec(c, ms);
    FactsHold(c, es);
  }

  /** The length of `n` windows, added up. */
  function Total(n: nat, length: nat): nat {
    if n == 0 then 0 else Total(n - 1, length) + length
  }

  lemma {:induction false} TotalIsProduct(n: nat, length: nat)
    ensures Total(n, length) == n * length
  {
    if n > 0 {
      TotalIsProduct(n - 1, length);
      assert n * length == (n - 1) * length + length;
    }
  }

  predicate Balanced(w: Windows, s: State, t: Tally) {
    && t.blocked + DueFirst(w, s.user) <= ACK_TIMEOUT + w.p2 + Total(t.starStarts, w.p2Star)
    && t.starStarts + DueStars(s) <= t.pending
    && t.moves + Work(s) <= 12 + 8 * t.responses
  }

  lemma BalancedStep(c: Config, w: Windows, s: State, m: Move, t: Tally)
    requires s.reader == Listening && Regular(s)
    requires s.user.EmplaceValue? || s.user.ToConversationIdle? ==> s.channel != WaitForResponse
    requires Balanced(w, s, t)
    ensures Balanced(w, CoarseNext(c, s, m), Count(c, w, s, m, t))
  {
    var s', t' := CoarseNext(c, s, m), Count(c, w, s, m, t);
    assert t'.starStarts + DueStars(s') <= t'.pending by { StarsStep(c, w, s, m, t); }
    assert t'.moves + Work(s') <= 12 + 8 * t'.responses by { WorkStep(c, s, m); }
    BlockedStep(c, w, s, m, t, Total(t.starStarts, w.p2Star));
    assert Total(t.starStarts + 1, w.p2Star) == Total(t.starStarts, w.p2Star) + w.p2Star;
  }

  lemma {:induction false} BalancedHolds(c: Config, w: Windows, ms: seq<Move>)
    ensures Balanced(w, CoarseExec(c, ms), TallyOf(c, w, ms))
  {
    if ms != [] {
      var before, m := ms[..|ms| - 1], ms[|ms| - 1];
      BalancedHolds(c, w, before);
      CoarseIsFine(c, before);
      RegularHolds(c, before);
      EmplacingIsQuiet(c, before);
      BalancedStep(c, w, CoarseExec(c, before), m, TallyOf(c, w, before));
    }
  }

  /**
   * Every call ends: it makes at most twelve moves and eight more for each accepted response, and as
   * long as it has not returned, it can move.
   */
  lemma EveryCallEnds(c: Config, w: Windows, ms: seq<Move>)
    ensures var s, t := CoarseExec(c, ms), TallyOf(c, w, ms);
            && t.moves <= 12 + 8 * t.responses
            && (InCall(s.user) ==> exists m: Move :: !m.Handle? && Moves(c, s, m))
  {
    BalancedHolds(c, w, ms);
    RegularHolds(c, ms);
    if InCall(CoarseExec(c, ms).user) { CanMove(c, CoarseExec(c, ms)); }
  }

  lemma CanMove(c: Config, s: State)
    requires InCall(s.user) && Regular(s)
    ensures exists m: Move :: !m.Handle? && Moves(c, s, m)
  {
    assert Moves(c, s, Step) || Moves(c, s, Expire) || Moves(c, s, Written(true));
  }

  lemma MoreWindows(m: nat, n: nat, length: nat)
    requires m <= n
    ensures m * length <= n * length
  {
    var d := n - m;
    assert n * length == m * length + d * length;
  }

  /**
   * With `k` accepted pending answers a call starts a timer of P2* at most `k` times, and the timers
   * it has started add up to at most 2000 + P2 + k * P2* milliseconds.
   */
  lemma {:induction false} BlockingBound(c: Config, w: Windows, ms: seq<Move>)
    ensures var t := TallyOf(c, w, ms);
            t.starStarts <= t.pending && t.blocked <= 2000 + w.p2 + t.pending * w.p2Star
  {
    BalancedHolds(c, w, ms);
    var t := TallyOf(c, w, ms);
    TotalIsProduct(t.starStarts, w.p2Star);
    MoreWindows(t.starStarts, t.pending, w.p2Star);
  }
}
