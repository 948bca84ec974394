/** What every interleaving of the exchange keeps. */
module ExchangeSafety {
  import opened Bytes
  import opened DiagnosticExchange

  // Runs and their prefixes.

  lemma ExecStep(c: Config, es: seq<Event>, e: Event)
    ensures Exec(c, es + [e]) == Next(c, Exec(c, es), e)
  {
    assert (es + [e])[..|es|] == es;
  }

  /** What precedes an event does not depend on what follows it. */
  lemma PrefixStable(es: seq<Event>, fs: seq<Event>, i: nat)
    requires i <= |es|
    ensures (es + fs)[..i] == es[..i]
    ensures i < |es| ==> (es + fs)[i] == es[i]
  {
  }

  // Ownership of the channel state.

  /** The reader is between its state query and its final transition on a response. */
  predicate MidResponse(r: Reader) {
    || r.Indicate? || r.WritePending? || r.CancelAfterPending? || r.ResizeBuffer? || r.WriteFinal?
    || r.CancelAfterFinal? || r.CopyBytes? || r.WriteSuccess? || r.ReleaseChannel?
  }

  /** The call has claimed the channel and does not yet wait for the response. */
  predicate Handshaking(u: User) {
    || u.WriteRequest? || u.WriteFailed? || u.ToWaitForAck? || u.StartAckTimer? || u.BlockedOnAck?
    || u.AckTimedOut? || u.AckCancelled? || u.AckRefused? || u.ToWaitForResponse?
  }

  predicate Owned(s: State) {
    && (MidResponse(s.reader) ==> s.channel == WaitForResponse)
    && (s.reader.WriteAckState? ==>
          && s.channel in {ChannelIdle, WaitForAck}
          && s.reader.state in {PositiveAckReceived, NegativeAckReceived})
    && (Handshaking(s.user) ==> s.channel != WaitForResponse)
    && (s.user == ToWaitForResponse ==> s.channel == PositiveAckReceived)
  }

  lemma OwnedStep(c: Config, s: State, e: Event)
    requires Owned(s)
    ensures Owned(Next(c, s, e))
  {
    match e {
      case UserStep => OwnedByUser(s);
      case ReaderStep => OwnedByReader(c, s);
      case _ =>
    }
  }

  lemma OwnedByUser(s: State)
    requires Owned(s)
    ensures Owned(NextUser(s))
  {
  }

  lemma OwnedByReader(c: Config, s: State)
    requires Owned(s)
    ensures Owned(NextReader(c, s))
  {
  }

  /**
   * In every reachable state a response being handled finds the channel still waiting for it, a
   * stale acknowledgement can only be written over an idle or waiting-for-ack channel, and no call
   * is in its handshake while a response is outstanding.
   */
  lemma {:induction false} Ownership(c: Config, es: seq<Event>)
    ensures Owned(Exec(c, es))
  {
    if es != [] {
      var last := |es| - 1;
      Ownership(c, es[..last]);
      OwnedStep(c, Exec(c, es[..last]), es[last]);
    }
  }

  // Conservation: requests taken over, responses consumed.

  function Taken(c: Config, es: seq<Event>): nat {
    if es == [] then 0
    else Taken(c, es[..|es| - 1]) + if EntersWait(c, es, |es| - 1) then 1 else 0
  }

  function Consumed(c: Config, es: seq<Event>): nat {
    if es == [] then 0
    else Consumed(c, es[..|es| - 1]) + if Consumes(c, es, |es| - 1) then 1 else 0
  }

  function Abandoned(c: Config, es: seq<Event>): nat {
    if es == [] then 0
    else Abandoned(c, es[..|es| - 1]) + if Abandons(c, es, |es| - 1) then 1 else 0
  }

  function Waiting(s: State): int {
    if s.channel == WaitForResponse then 1 else 0
  }

  lemma WaitingStep(c: Config, s: State, e: Event)
    requires Owned(s)
    ensures Waiting(Next(c, s, e)) ==
            if e == UserStep && s.user == ToWaitForResponse then 1
            else if e == ReaderStep && s.reader == ReleaseChannel then 0
            else if e == Reset && !InCall(s.user) && s.reader == Listening then 0
            else Waiting(s)
  {
  }

  /**
   * Every positive acknowledgement turned into success is matched by one consumed response or one
   * reset, except for the one outstanding while the channel waits.
   */
  lemma {:induction false} Conservation(c: Config, es: seq<Event>)
    ensures Taken(c, es) == Consumed(c, es) + Abandoned(c, es) + Waiting(Exec(c, es))
  {
    if es != [] {
      var last := |es| - 1;
      Conservation(c, es[..last]);
      Ownership(c, es[..last]);
      WaitingStep(c, Exec(c, es[..last]), es[last]);
    }
  }

  // Response integrity.

  /** Positions of the latest call, the latest entry into waiting, and the latest accepted frame. */
  datatype History = History(called: int, entered: int, accepted: int, uds: seq<byte>)

  function Track(c: Config, es: seq<Event>): History {
    if es == [] then History(-1, -1, -1, [])
    else
      var last := |es| - 1;
      var h, s := Track(c, es[..last]), Exec(c, es[..last]);
      if BeginsCall(c, es, last) then h.(called := last)
      else if EntersWait(c, es, last) then h.(entered := last)
      else if s.reader.CheckWaitForResponse? && Accepts(c, es, last, s.reader.uds)
      then h.(accepted := last, uds := s.reader.uds)
      else h
  }

  /** A pending answer within the buffer limit: it leaves the channel waiting. */
  predicate KeepsWaiting(c: Config, uds: seq<byte>) {
    |uds| <= c.rxBufferSize && IsPending(uds)
  }

  /** Nothing the reader does next touches the buffer or the conversation before the next entry. */
  predicate Quiet(s: State) {
    && (s.channel == WaitForResponse ==> s.reader.ReleaseChannel?)
    && (MidResponse(s.reader) ==> s.reader.ReleaseChannel?)
  }

  /** The buffer holds exactly the frame accepted since the channel last began to wait. */
  predicate Delivered(c: Config, s: State, h: History) {
    && h.entered < h.accepted
    && IsFinal(c, h.uds)
    && s.buffer == h.uds
    && Quiet(s)
  }

  /** What the reader knows of the frame it is handling. */
  predicate ReaderFacts(c: Config, s: State, h: History) {
    match s.reader
    case Indicate(uds) => h.entered < h.accepted && uds == h.uds
    case WritePending => h.entered < h.accepted && KeepsWaiting(c, h.uds)
    case CancelAfterPending => h.entered < h.accepted && KeepsWaiting(c, h.uds)
    case ResizeBuffer(uds) => Handles(c, h, uds)
    case WriteFinal(uds) => Handles(c, h, uds) && |s.buffer| == |uds|
    case CancelAfterFinal(uds) => Handles(c, h, uds) && |s.buffer| == |uds|
    case CopyBytes(uds, i) =>
      && Handles(c, h, uds)
      && |s.buffer| == |uds| && i <= |uds|
      && forall k :: 0 <= k < i ==> s.buffer[k] == uds[k]
    case WriteSuccess(uds) => Handles(c, h, uds) && s.buffer == uds
    case ReleaseChannel => h.entered < h.accepted
    case _ => s.channel == WaitForResponse && h.entered < h.accepted ==> KeepsWaiting(c, h.uds)
  }

  predicate Handles(c: Config, h: History, uds: seq<byte>) {
    h.entered < h.accepted && uds == h.uds && IsFinal(c, uds)
  }

  /**
   * What the user thread knows of the response it may return, given whether the channel began to
   * wait within this call and whether a response was delivered since.
   */
  predicate UserFacts(u: User, conversation: ConversationState, thisCall: bool, delivered: bool) {
    match u
    case ToDiagWaitForRes => thisCall
    case StartResponseTimer(r, _) => LoopFacts(conversation, thisCall, delivered, r)
    case BlockedOnResponse(r) => LoopFacts(conversation, thisCall, delivered, r)
    case ResponseTimedOut(r) => LoopFacts(conversation, thisCall, delivered, r)
    case QueryFinal(r) => LoopFacts(conversation, thisCall, delivered, r)
    case QueryPending(r) => LoopFacts(conversation, thisCall, delivered, r)
    case ToStartP2Star(r) => LoopFacts(conversation, thisCall, delivered, r)
    case LoopSwitch(r) => LoopFacts(conversation, thisCall, delivered, r)
    case LoopTest(r) =>
      if r == Response then conversation == ConversationIdle && thisCall && delivered
      else LoopFacts(conversation, thisCall, delivered, r)
    case EmplaceValue(r) =>
      LoopFacts(conversation, thisCall, delivered, r) && conversation == DiagSuccess
    case ToConversationIdle(r) => r == Response && thisCall && delivered
    case Returned(r) => r == Response ==> thisCall && delivered
    case _ => true
  }

  /** In the response loop, success in the conversation state means a delivered frame. */
  predicate LoopFacts(conversation: ConversationState, thisCall: bool, delivered: bool, result: Outcome) {
    result != Response && thisCall && (conversation == DiagSuccess ==> delivered)
  }

  predicate Facts(c: Config, s: State, h: History) {
    && Owned(s)
    && ReaderFacts(c, s, h)
    && UserFacts(s.user, s.conversation, h.called < h.entered, Delivered(c, s, h))
  }

  lemma {:induction false} FactsHold(c: Config, es: seq<Event>)
    ensures Facts(c, Exec(c, es), Track(c, es))
  {
    if es != [] {
      var last := |es| - 1;
      var before := es[..last];
      FactsHold(c, before);
      TrackBound(c, before);
      FactsStep(c, Exec(c, before), es[last], Track(c, before), Track(c, es), last);
    }
  }

  lemma {:induction false} TrackBound(c: Config, es: seq<Event>)
    ensures var h := Track(c, es);
            -1 <= h.called < |es| && -1 <= h.entered < |es| && -1 <= h.accepted < |es|
  {
    if es != [] { TrackBound(c, es[..|es| - 1]); }
  }

  /** How one event at position `n` changes the history. */
  predicate Tracked(s: State, e: Event, h: History, h': History, n: int) {
    h' == if e == Call(true, true) && !InCall(s.user) then h.(called := n)
          else if e == UserStep && s.user == ToWaitForResponse then h.(entered := n)
          else if e == ReaderStep && s.reader.CheckWaitForResponse? && s.channel == WaitForResponse
          then h.(accepted := n, uds := s.reader.uds)
          else h
  }

  lemma {:induction false} FactsStep(c: Config, s: State, e: Event, h: History, h': History, n: int)
    requires Facts(c, s, h) && Tracked(s, e, h, h', n)
    requires h.called < n && h.entered < n && h.accepted < n
    ensures Facts(c, Next(c, s, e), h')
  {
    var t := Next(c, s, e);
    OwnedStep(c, s, e);
    if Delivered(c, s, h) && !(e == UserStep && s.user == ToWaitForResponse) {
      DeliveredStays(c, s, e, h);
    }
    match e {
      case ReaderStep =>
        ReaderKeepsReaderFacts(c, s, h, h', n);
        ReaderKeepsConversation(c, s, h);
      case UserStep =>
        UserKeepsReaderFacts(c, s, h, h');
        UserKeepsUserFacts(s, h.called < h.entered, Delivered(c, s, h),
                           h'.called < h'.entered, Delivered(c, t, h'));
      case Call(_, _) => OthersKeepReaderFacts(c, s, e, h, h');
      case WriteDone(_) => OthersKeepReaderFacts(c, s, e, h, h');
      case TimerExpires => OthersKeepReaderFacts(c, s, e, h, h');
      case Arrive(_) => OthersKeepReaderFacts(c, s, e, h, h');
      case Reset => OthersKeepReaderFacts(c, s, e, h, h');
    }
  }

  /** Once delivered, a response is left alone until the channel next begins to wait. */
  lemma DeliveredStays(c: Config, s: State, e: Event, h: History)
    requires Owned(s) && Delivered(c, s, h)
    requires !(e == UserStep && s.user == ToWaitForResponse)
    ensures Delivered(c, Next(c, s, e), h)
    ensures e == ReaderStep ==> !(s.reader.CheckWaitForResponse? && s.channel == WaitForResponse)
  {
    QuietStays(c, s, e);
  }

  lemma QuietStays(c: Config, s: State, e: Event)
    requires Owned(s) && Quiet(s)
    requires !(e == UserStep && s.user == ToWaitForResponse)
    ensures Quiet(Next(c, s, e)) && Next(c, s, e).buffer == s.buffer
    ensures e != UserStep ==> Next(c, s, e).conversation == s.conversation
  {
  }

  lemma ReaderKeepsReaderFacts(c: Config, s: State, h: History, h': History, n: int)
    requires Owned(s) && ReaderFacts(c, s, h) && Tracked(s, ReaderStep, h, h', n)
    requires h.entered < n
    ensures ReaderFacts(c, NextReader(c, s), h')
  {
    match s.reader {
      case CopyBytes(uds, i) => CopyKeepsReaderFacts(c, s, h);
      case ResizeBuffer(uds) =>
      case _ => assert NextReader(c, s).buffer == s.buffer;
    }
  }

  lemma CopyKeepsReaderFacts(c: Config, s: State, h: History)
    requires ReaderFacts(c, s, h) && s.reader.CopyBytes?
    ensures ReaderFacts(c, NextReader(c, s), h)
  {
    if s.reader.copied == |s.reader.uds| { assert s.buffer == s.reader.uds; }
  }

  /** The reader makes the conversation succeed only by delivering. */
  lemma ReaderKeepsConversation(c: Config, s: State, h: History)
    requires Owned(s) && ReaderFacts(c, s, h)
    ensures var t := NextReader(c, s);
            && t.user == s.user
            && (t.conversation == s.conversation || t.conversation != DiagSuccess || Delivered(c, t, h))
  {
  }

  lemma UserKeepsReaderFacts(c: Config, s: State, h: History, h': History)
    requires Owned(s) && ReaderFacts(c, s, h)
    requires if s.user == ToWaitForResponse then h' == h.(entered := h'.entered) && h.accepted < h'.entered
             else h' == h
    ensures ReaderFacts(c, NextUser(s), h')
  {
    var t := NextUser(s);
    assert t.reader == s.reader && t.buffer == s.buffer;
    if s.user == ToWaitForResponse {
      assert !MidResponse(s.reader);
    } else {
      assert h' == h && (t.channel == s.channel || t.channel != WaitForResponse);
    }
  }

  lemma UserKeepsUserFacts(s: State, thisCall: bool, delivered: bool, thisCall': bool, delivered': bool)
    requires UserFacts(s.user, s.conversation, thisCall, delivered)
    requires if s.user == ToWaitForResponse then thisCall' else thisCall' == thisCall && (delivered ==> delivered')
    ensures UserFacts(NextUser(s).user, NextUser(s).conversation, thisCall', delivered')
  {
  }

  lemma OthersKeepReaderFacts(c: Config, s: State, e: Event, h: History, h': History)
    requires ReaderFacts(c, s, h)
    requires h' == h.(called := h'.called)
    requires e != ReaderStep && e != UserStep
    ensures ReaderFacts(c, Next(c, s, e), h')
  {
    var t := Next(c, s, e);
    assert t.buffer == s.buffer && (t.channel == s.channel || t.channel == ChannelIdle);
    if t.reader != s.reader {
      assert s.reader == Listening && (t.reader.CheckWaitForAck? || t.reader.CheckWaitForResponse?);
    }
  }

  // What the recorded positions mean on the run.

  ghost predicate LastCall(c: Config, es: seq<Event>, called: int) {
    && -1 <= called < |es|
    && (called >= 0 ==> BeginsCall(c, es, called))
    && (forall k :: called < k < |es| ==> !BeginsCall(c, es, k))
  }

  ghost predicate LastEntry(c: Config, es: seq<Event>, entered: int) {
    && -1 <= entered < |es|
    && (entered >= 0 ==> EntersWait(c, es, entered))
    && (forall k :: entered < k < |es| ==> !EntersWait(c, es, k))
  }

  /** Of the frames accepted after `entered`, only the one at `accepted` can be other than pending. */
  ghost predicate LastAccepted(c: Config, es: seq<Event>, entered: int, accepted: int, uds: seq<byte>) {
    && -1 <= accepted < |es|
    && (accepted >= 0 ==> Accepts(c, es, accepted, uds))
    && (forall k, v :: entered < k < |es| && k != accepted && 0 <= k && Accepts(c, es, k, v) ==>
          KeepsWaiting(c, v))
  }

  lemma MarksStable(c: Config, es: seq<Event>, n: nat, k: nat)
    requires k < n <= |es|
    ensures BeginsCall(c, es, k) == BeginsCall(c, es[..n], k)
    ensures EntersWait(c, es, k) == EntersWait(c, es[..n], k)
    ensures forall v :: Accepts(c, es, k, v) == Accepts(c, es[..n], k, v)
  {
    assert es[..n][..k] == es[..k];
  }

  lemma {:induction false} CalledMeans(c: Config, es: seq<Event>)
    ensures LastCall(c, es, Track(c, es).called)
  {
    if es != [] {
      var last := |es| - 1;
      CalledMeans(c, es[..last]);
      forall k | 0 <= k < last ensures BeginsCall(c, es, k) == BeginsCall(c, es[..last], k) {
        MarksStable(c, es, last, k);
      }
    }
  }

  lemma {:induction false} EnteredMeans(c: Config, es: seq<Event>)
    ensures LastEntry(c, es, Track(c, es).entered)
  {
    if es != [] {
      var last := |es| - 1;
      EnteredMeans(c, es[..last]);
      forall k | 0 <= k < last ensures EntersWait(c, es, k) == EntersWait(c, es[..last], k) {
        MarksStable(c, es, last, k);
      }
    }
  }

  lemma {:induction false} AcceptedMeans(c: Config, es: seq<Event>)
    ensures var h := Track(c, es); LastAccepted(c, es, h.entered, h.accepted, h.uds)
  {
    if es != [] {
      var last := |es| - 1;
      var before, s := es[..last], Exec(c, es[..last]);
      AcceptedMeans(c, before);
      FactsHold(c, before);
      TrackBound(c, before);
      var h, h' := Track(c, before), Track(c, es);
      AcceptedExtends(c, es, h.entered, h.accepted, h.uds);
      if s.reader.CheckWaitForResponse? && Accepts(c, es, last, s.reader.uds) {
        assert h.entered < h.accepted ==> KeepsWaiting(c, h.uds);
        AcceptedNext(c, es, h, s.reader.uds);
      } else {
        assert forall v :: !Accepts(c, es, last, v);
        AcceptedSame(c, es, h, h'.entered);
      }
    }
  }

  /** Adding an event leaves the earlier acceptances as they were. */
  lemma AcceptedExtends(c: Config, es: seq<Event>, entered: int, accepted: int, uds: seq<byte>)
    requires es != [] && LastAccepted(c, es[..|es| - 1], entered, accepted, uds)
    ensures accepted >= 0 ==> Accepts(c, es, accepted, uds)
    ensures forall k, v :: entered < k < |es| - 1 && k != accepted && 0 <= k && Accepts(c, es, k, v) ==>
              KeepsWaiting(c, v)
  {
    var last := |es| - 1;
    forall k, v | entered < k < last && k != accepted && 0 <= k && Accepts(c, es, k, v)
      ensures KeepsWaiting(c, v)
    {
      MarksStable(c, es, last, k);
      assert Accepts(c, es[..last], k, v);
    }
    if accepted >= 0 { MarksStable(c, es, last, accepted); }
  }

  lemma AcceptedSame(c: Config, es: seq<Event>, h: History, entered: int)
    requires es != [] && -1 <= h.accepted < |es| && (entered == h.entered || entered == |es| - 1)
    requires forall k: nat, v :: |es| - 1 <= k < |es| ==> !Accepts(c, es, k, v)
    requires h.accepted >= 0 ==> Accepts(c, es, h.accepted, h.uds)
    requires forall k, v :: h.entered < k < |es| - 1 && k != h.accepted && 0 <= k && Accepts(c, es, k, v) ==>
               KeepsWaiting(c, v)
    ensures LastAccepted(c, es, entered, h.accepted, h.uds)
  {
  }

  lemma AcceptedNext(c: Config, es: seq<Event>, h: History, uds: seq<byte>)
    requires es != [] && h.accepted < |es| - 1 && Accepts(c, es, |es| - 1, uds)
    requires -1 <= h.entered && -1 <= h.accepted
    requires h.accepted >= 0 ==> Accepts(c, es, h.accepted, h.uds)
    requires h.entered < h.accepted ==> KeepsWaiting(c, h.uds)
    requires forall k, v :: h.entered < k < |es| - 1 && k != h.accepted && 0 <= k && Accepts(c, es, k, v) ==>
               KeepsWaiting(c, v)
    ensures LastAccepted(c, es, h.entered, |es| - 1, uds)
  {
    forall k, v | h.entered < k < |es| - 1 && 0 <= k && Accepts(c, es, k, v)
      ensures KeepsWaiting(c, v)
    {
      if k == h.accepted { assert Accepts(c, es, k, h.uds); }
    }
  }

  // Main results over every interleaving.

  /** The run's latest call began to wait and then accepted `uds`, the only frame that is not pending. */
  ghost predicate AnsweredBy(c: Config, es: seq<Event>, call: nat, enter: nat, accept: nat, uds: seq<byte>) {
    && call < enter < accept < |es|
    && LastCall(c, es, call)
    && LastEntry(c, es, enter)
    && IsFinal(c, uds)
    && LastAccepted(c, es, enter, accept, uds)
  }

  /**
   * When a call returns a response, the buffer behind it is, byte for byte, the one frame that was
   * accepted after this call moved the channel to waiting and that is not a pending answer.
   */
  lemma {:induction false} ResponseIntegrity(c: Config, es: seq<Event>)
    requires Exec(c, es).user == Returned(Response)
    ensures exists call, enter, accept ::
              AnsweredBy(c, es, call, enter, accept, Exec(c, es).buffer)
    ensures var b := Exec(c, es).buffer;
            0 < |b| <= c.rxBufferSize && !(|b| >= 3 && b[0] == 0x7F && b[2] == 0x78)
  {
    FactsHold(c, es);
    CalledMeans(c, es);
    EnteredMeans(c, es);
    AcceptedMeans(c, es);
    TrackOrder(c, es);
    var h := Track(c, es);
    assert AnsweredBy(c, es, h.called, h.entered, h.accepted, Exec(c, es).buffer);
  }

  predicate Begun(u: User) {
    InCall(u) || u == Returned(Response)
  }

  /** A call that is under way, or has returned a response, was begun. */
  lemma {:induction false} TrackOrder(c: Config, es: seq<Event>)
    ensures Begun(Exec(c, es).user) ==> Track(c, es).called >= 0
  {
    if es != [] {
      var last := |es| - 1;
      TrackOrder(c, es[..last]);
      if Begun(Exec(c, es).user) { BegunStep(c, Exec(c, es[..last]), es[last]); }
    }
  }

  lemma BegunStep(c: Config, s: State, e: Event)
    requires Begun(Next(c, s, e).user)
    ensures Begun(s.user) || e == Call(true, true)
  {
  }

  /**
   * A frame answers at most one call: when another call has begun since a response was returned, and
   * it returns a response in turn, its frame was accepted later.
   */
  lemma {:induction false} NoFrameReturnedTwice(c: Config, es: seq<Event>, fs: seq<Event>, k: nat)
    requires Exec(c, es).user == Returned(Response) && Exec(c, es + fs).user == Returned(Response)
    requires |es| <= k < |es| + |fs| && BeginsCall(c, es + fs, k)
    ensures exists call: nat, enter: nat, accept: nat, call': nat, enter': nat, accept': nat ::
              && AnsweredBy(c, es, call, enter, accept, Exec(c, es).buffer)
              && AnsweredBy(c, es + fs, call', enter', accept', Exec(c, es + fs).buffer)
              && accept < k < accept'
  {
    ResponseIntegrity(c, es);
    ResponseIntegrity(c, es + fs);
    var call: nat, enter: nat, accept: nat :| AnsweredBy(c, es, call, enter, accept, Exec(c, es).buffer);
    var call': nat, enter': nat, accept': nat :|
      AnsweredBy(c, es + fs, call', enter', accept', Exec(c, es + fs).buffer);
    assert !(call' < k);
  }

  /** The buffer changes only while the channel waits for a response, and only by the reader. */
  lemma {:induction false} BufferWrittenOnlyWhileWaiting(c: Config, es: seq<Event>, e: Event)
    ensures Exec(c, es + [e]).buffer != Exec(c, es).buffer ==>
              e == ReaderStep && Exec(c, es).channel == WaitForResponse
  {
    ExecStep(c, es, e);
    Ownership(c, es);
    if Exec(c, es + [e]).buffer != Exec(c, es).buffer { BufferStep(c, Exec(c, es), e); }
  }

  lemma BufferStep(c: Config, s: State, e: Event)
    requires Owned(s) && Next(c, s, e).buffer != s.buffer
    ensures e == ReaderStep && s.channel == WaitForResponse
  {
  }

  /** A quiet state stays quiet, with the same buffer, until the channel begins to wait again. */
  lemma {:induction false} QuietRun(c: Config, es: seq<Event>, fs: seq<Event>)
    requires Quiet(Exec(c, es))
    requires forall k :: |es| <= k < |es| + |fs| ==> !EntersWait(c, es + fs, k)
    ensures Quiet(Exec(c, es + fs)) && Exec(c, es + fs).buffer == Exec(c, es).buffer
  {
    if fs == [] {
      assert es + fs == es;
    } else {
      var last := |fs| - 1;
      var run := es + fs[..last];
      assert es + fs == run + [fs[last]];
      forall k | |es| <= k < |run| ensures !EntersWait(c, run, k) {
        PrefixStable(run, [fs[last]], k);
        assert !EntersWait(c, es + fs, k);
      }
      QuietRun(c, es, fs[..last]);
      ExecStep(c, run, fs[last]);
      Ownership(c, run);
      PrefixStable(run, [fs[last]], |run|);
      assert !EntersWait(c, es + fs, |run|);
      QuietStays(c, Exec(c, run), fs[last]);
    }
  }

  /**
   * A returned response refers to the shared buffer, yet reads the same bytes along every
   * continuation in which the channel does not begin to wait again.
   */
  lemma {:induction false} ReturnedBytesStay(c: Config, es: seq<Event>, fs: seq<Event>)
    requires Exec(c, es).user == Returned(Response)
    requires forall k :: |es| <= k < |es| + |fs| ==> !EntersWait(c, es + fs, k)
    ensures Exec(c, es + fs).buffer == Exec(c, es).buffer
  {
    FactsHold(c, es);
    QuietRun(c, es, fs);
  }
}
