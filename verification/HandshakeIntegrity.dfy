/** Which acknowledgement a call passes its handshake on, over every interleaving. */
module HandshakeIntegrity {
  import opened DiagnosticExchange
  import opened ExchangeSafety
  import opened ExchangeFaults

  /** The call has moved the channel to waiting for its acknowledgement and has not given up. */
  predicate Awaiting(u: User) {
    u.StartAckTimer? || u.BlockedOnAck? || u.AckTimedOut? || u.AckCancelled? || u.ToWaitForResponse?
  }

  /**
   * What is known in a handshake, given whether the reader had a positive acknowledgement accepted
   * before it, and whether it accepted one within it.
   */
  predicate AckFacts(s: State, stale: bool, own: bool) {
    Awaiting(s.user) ==>
      && !(stale && own)
      && s.channel in {WaitForAck, PositiveAckReceived, NegativeAckReceived}
      && (s.channel == WaitForAck ==> (s.reader == WriteAckState(PositiveAckReceived) <==> stale || own))
      && (s.channel == PositiveAckReceived ==> stale || own)
      && (s.channel == NegativeAckReceived ==> !stale && !own)
  }

  predicate TakesPositive(s: State, e: Event) {
    e == ReaderStep && s.reader == CheckWaitForAck(0x8002, 0x00) && s.channel == WaitForAck
  }

  lemma AckFactsStep(c: Config, s: State, e: Event, stale: bool, own: bool)
    requires Owned(s) && AckFacts(s, stale, own)
    requires !(e == UserStep && s.user == ToWaitForAck)
    ensures AckFacts(Next(c, s, e), stale, own || TakesPositive(s, e))
  {
    match e {
      case UserStep => AckFactsByUser(s, stale, own);
      case ReaderStep => AckFactsByReader(c, s, stale, own);
      case _ =>
    }
  }

  lemma AckFactsByUser(s: State, stale: bool, own: bool)
    requires Owned(s) && AckFacts(s, stale, own) && s.user != ToWaitForAck
    ensures AckFacts(NextUser(s), stale, own)
  {
  }

  lemma AckFactsByReader(c: Config, s: State, stale: bool, own: bool)
    requires Owned(s) && AckFacts(s, stale, own)
    ensures AckFacts(NextReader(c, s), stale, own || TakesPositive(s, ReaderStep))
  {
  }

  /** The latest handshake of the run begins to wait at event `await`. */
  ghost predicate LatestAwait(c: Config, es: seq<Event>, await: nat) {
    await < |es| && AwaitsAck(c, es, await) && forall k :: await < k < |es| ==> !AwaitsAck(c, es, k)
  }

  /** When the handshake began to wait, the reader was about to write an earlier acceptance. */
  predicate Stale(c: Config, es: seq<Event>, await: nat)
    requires await < |es|
  {
    Exec(c, es[..await]).reader == WriteAckState(PositiveAckReceived)
  }

  /** A positive acknowledgement was accepted after the handshake began to wait. */
  ghost predicate Acknowledged(c: Config, es: seq<Event>, await: nat) {
    exists a :: await < a < |es| && AcceptsPositiveAck(c, es, a)
  }

  lemma AckMarksStable(c: Config, es: seq<Event>, n: nat, k: nat)
    requires k < n <= |es|
    ensures AwaitsAck(c, es, k) == AwaitsAck(c, es[..n], k)
    ensures AcceptsPositiveAck(c, es, k) == AcceptsPositiveAck(c, es[..n], k)
    ensures Stale(c, es, k) == Stale(c, es[..n], k)
  {
    assert es[..n][..k] == es[..k];
  }

  lemma AcknowledgedStep(c: Config, es: seq<Event>, await: nat)
    requires await < |es| - 1
    ensures Acknowledged(c, es, await) <==>
              Acknowledged(c, es[..|es| - 1], await) || AcceptsPositiveAck(c, es, |es| - 1)
  {
    var last := |es| - 1;
    forall k | 0 <= k < last ensures AcceptsPositiveAck(c, es, k) == AcceptsPositiveAck(c, es[..last], k) {
      AckMarksStable(c, es, last, k);
    }
  }

  lemma LatestAwaitBefore(c: Config, es: seq<Event>, await: nat)
    requires LatestAwait(c, es, await) && await < |es| - 1
    ensures LatestAwait(c, es[..|es| - 1], await)
  {
    var last := |es| - 1;
    forall k | await <= k < last ensures AwaitsAck(c, es, k) == AwaitsAck(c, es[..last], k) {
      AckMarksStable(c, es, last, k);
    }
  }

  lemma {:induction false} AckFactsHold(c: Config, es: seq<Event>, await: nat)
    requires LatestAwait(c, es, await)
    ensures AckFacts(Exec(c, es), Stale(c, es, await), Acknowledged(c, es, await))
  {
    var last := |es| - 1;
    var before := es[..last];
    Ownership(c, before);
    if await == last {
      assert Exec(c, es) == NextUser(Exec(c, before));
    } else {
      LatestAwaitBefore(c, es, await);
      AckFactsHold(c, before, await);
      AckMarksStable(c, es, last, await);
      AcknowledgedStep(c, es, await);
      assert !AwaitsAck(c, es, last);
      AckFactsStep(c, Exec(c, before), es[last], Stale(c, before, await), Acknowledged(c, before, await));
    }
  }

  /**
   * A call that passes its handshake does so on a positive acknowledgement accepted after it began to
   * wait, exactly if the reader was not just then about to write one accepted before.
   */
  lemma {:induction false} HandshakeIntegrity(c: Config, es: seq<Event>, await: nat)
    requires LatestAwait(c, es, await) && Exec(c, es).user == ToWaitForResponse
    ensures Acknowledged(c, es, await) <==> !Stale(c, es, await)
  {
    AckFactsHold(c, es, await);
    Ownership(c, es);
  }

  predicate NoArrival(es: seq<Event>) {
    forall e: Event :: e in es ==> !e.Arrive?
  }

  /** The late acknowledgement of a call that timed out lets the next call pass: no frame arrives between. */
  lemma LateAckReachable(c: Config)
    ensures exists es, fs ::
              && Exec(c, es).user == Returned(Failed(AckTimeout))
              && NoArrival(fs)
              && Exec(c, es + fs).user == ToWaitForResponse
  {
    var es, s0 := ReachLateAck(c);
    var fs: seq<Event> := [];
    assert es + fs == es;
    var s1 := s0.(user := CheckIdle);
    fs := ExtendQuietly(c, es, fs, s0, Call(true, true), s1);
    fs := ExtendQuietly(c, es, fs, s1, UserStep, s1.(user := WriteRequest));
    fs := ExtendQuietly(c, es, fs, s1.(user := WriteRequest), WriteDone(true), s1.(user := ToWaitForAck));
    var s2 := s1.(channel := WaitForAck, user := StartAckTimer);
    fs := ExtendQuietly(c, es, fs, s1.(user := ToWaitForAck), UserStep, s2);
    var s3 := s2.(ackTimer := true, user := BlockedOnAck);
    fs := ExtendQuietly(c, es, fs, s2, UserStep, s3);
    fs := PassOnLateAck(c, es, fs, s3);
  }

  lemma PassOnLateAck(c: Config, es: seq<Event>, fs: seq<Event>, s: State) returns (fs': seq<Event>)
    requires Exec(c, es + fs) == s && NoArrival(fs)
    requires s.user == BlockedOnAck && s.reader == WriteAckState(PositiveAckReceived)
    ensures Exec(c, es + fs').user == ToWaitForResponse && NoArrival(fs')
  {
    var s1 := s.(channel := PositiveAckReceived, reader := CancelAckTimer);
    fs' := ExtendQuietly(c, es, fs, s, ReaderStep, s1);
    var s2 := s1.(ackTimer := false, reader := Listening);
    fs' := ExtendQuietly(c, es, fs', s1, ReaderStep, s2);
    fs' := ExtendQuietly(c, es, fs', s2, UserStep, s2.(user := AckCancelled));
    fs' := ExtendQuietly(c, es, fs', s2.(user := AckCancelled), UserStep, s2.(user := ToWaitForResponse));
  }

  /** Extends the part of a run after `es` by an event that is no arrival. */
  lemma ExtendQuietly(c: Config, es: seq<Event>, fs: seq<Event>, s: State, e: Event, s': State)
    returns (fs': seq<Event>)
    requires Exec(c, es + fs) == s && Next(c, s, e) == s'
    requires !e.Arrive? && NoArrival(fs)
    ensures Exec(c, es + fs') == s' && NoArrival(fs')
  {
    fs' := fs + [e];
    ExecStep(c, es + fs, e);
    assert es + fs' == es + fs + [e];
  }
}
