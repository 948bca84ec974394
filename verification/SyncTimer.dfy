/** The synchronous timer: a flag, a wait loop with a predicate, and one of two callbacks. */
module SyncTimer {

  datatype TimerState = Idle | CancelRequested | Timeout

  datatype Callback = TimeoutCallback | CancelCallback

  /** What happens, in order, while the waiting thread has released the mutex or holds it to look. */
  datatype Moment =
    | Cancel                                     // another thread calls CancelWait
    | Look(clock: nat, expired: bool)            // the waiter evaluates its predicate at `clock`;
                                                 // `expired` if the condition variable timed out

  /** A wait that has not returned by the end of the script is still blocked. */
  datatype Result = Blocked | Ended(state: TimerState)

  /** The look at position `k` ends the wait, whatever came before it. */
  predicate Decisive(script: seq<Moment>, expiry: nat, k: nat)
    requires k < |script|
  {
    script[k].Look? && (script[k].clock >= expiry || script[k].expired || Cancel in script[..k])
  }

  /** What a decisive look concludes. */
  function Conclusion(script: seq<Moment>, expiry: nat, k: nat): TimerState
    requires k < |script| && script[k].Look?
  {
    if script[k].clock >= expiry then Timeout
    else if Cancel in script[..k] then CancelRequested
    else Idle
  }

  ghost predicate EndsAt(script: seq<Moment>, expiry: nat, k: nat) {
    && k < |script| && Decisive(script, expiry, k)
    && forall j :: 0 <= j < k ==> !Decisive(script, expiry, j)
  }

  /** No look of the script ends the wait. */
  predicate Undecided(script: seq<Moment>, expiry: nat) {
    forall k :: 0 <= k < |script| ==> !Decisive(script, expiry, k)
  }

  /** The first decisive look of the script concludes `state`. */
  ghost predicate EndsAs(script: seq<Moment>, expiry: nat, state: TimerState) {
    exists k: nat :: EndsAt(script, expiry, k) && Conclusion(script, expiry, k) == state
  }

  /** The condition variable reports a timeout only once the clock has reached the expiry time. */
  predicate Honest(script: seq<Moment>, expiry: nat) {
    forall m :: m in script && m.Look? && m.expired ==> m.clock >= expiry
  }

  class SyncTimer {
    var startRunning: bool

    constructor ()
      ensures !startRunning
    {
      startRunning := false;
    }

    method IsTimerActive() returns (active: bool)
      ensures active == startRunning
    {
      active := startRunning;
    }

    method CancelWait()
      modifies this
      ensures !startRunning
    {
      startRunning := false;
    }

    /** Runs the script from the start of the timer at clock reading `now`. */
    method Start(now: nat, timeout: nat, script: seq<Moment>) returns (r: Result)
      modifies this
      ensures r.Blocked? <==> Undecided(script, now + timeout)
      ensures r.Ended? ==> EndsAs(script, now + timeout, r.state)
    {
      var timerState := Idle;
      startRunning := true;
      var expiry := now + timeout;
      var i := 0;
      while i < |script|
        invariant 0 <= i <= |script| && timerState == Idle
        invariant startRunning <==> Cancel !in script[..i]
        invariant forall k :: 0 <= k < i ==> !Decisive(script, expiry, k)
      {
        assert script[..i + 1] == script[..i] + [script[i]];
        match script[i] {
          case Cancel => CancelWait();
          case Look(clock, expired) =>
            var doExitWait := false;
            if clock >= expiry {
              timerState := Timeout;
              doExitWait := true;
            } else if !startRunning {
              timerState := CancelRequested;
              doExitWait := true;
            }
            if doExitWait || expired {
              assert EndsAt(script, expiry, i);
              return Ended(timerState);
            }
        }
        i := i + 1;
      }
      r := Blocked;
    }

    /** Runs exactly one callback once the wait is over, and none before. */
    method WaitForTimeout(now: nat, timeout: nat, script: seq<Moment>) returns (calls: seq<Callback>)
      modifies this
      ensures calls == [] <==> Undecided(script, now + timeout)
      ensures calls != [] ==> |calls| == 1
      ensures calls == [TimeoutCallback] <==> EndsAs(script, now + timeout, Timeout)
    {
      var r := Start(now, timeout, script);
      match r {
        case Blocked => calls := [];
        case Ended(Timeout) => calls := [TimeoutCallback];
        case Ended(_) => calls := [CancelCallback];
      }
      if r.Ended? && EndsAs(script, now + timeout, Timeout) {
        EndsAsUnique(script, now + timeout, r.state, Timeout);
      }
    }
  }

  /** The script determines how the wait ends. */
  lemma EndsAsUnique(script: seq<Moment>, expiry: nat, a: TimerState, b: TimerState)
    requires EndsAs(script, expiry, a) && EndsAs(script, expiry, b)
    ensures a == b
  {
    var j: nat :| EndsAt(script, expiry, j) && Conclusion(script, expiry, j) == a;
    var k: nat :| EndsAt(script, expiry, k) && Conclusion(script, expiry, k) == b;
    assert !(j < k) && !(k < j);
  }

  /**
   * What a caller may conclude. The timeout callback runs only at or after expiry. The cancel callback
   * runs only for a cancellation issued after the start, seen strictly before expiry, and at the first
   * look after it: every earlier look precedes every cancellation.
   */
  lemma Contract(script: seq<Moment>, now: nat, timeout: nat, k: nat)
    requires EndsAt(script, now + timeout, k) && Honest(script, now + timeout)
    ensures Conclusion(script, now + timeout, k) != Idle
    ensures Conclusion(script, now + timeout, k) == Timeout <==> script[k].clock >= now + timeout
    ensures Conclusion(script, now + timeout, k) == CancelRequested ==>
              && (exists j :: 0 <= j < k && script[j] == Cancel)
              && (forall i, j :: 0 <= i < k && 0 <= j < k && script[i].Look? && script[j] == Cancel ==> i < j)
  {
    var expiry := now + timeout;
    assert script[k] in script;
    if Conclusion(script, expiry, k) == CancelRequested {
      var j :| 0 <= j < k && script[..k][j] == Cancel;
      assert script[j] == Cancel;
      forall i, j | 0 <= i < k && 0 <= j < k && script[i].Look? && script[j] == Cancel
        ensures i < j
      {
        assert !Decisive(script, expiry, i);
        SeenBefore(script, i, j);
      }
    }
  }

  /** No look before position `k` comes at or after expiry, or after a cancellation. */
  predicate Uneventful(script: seq<Moment>, expiry: nat, k: nat)
    requires k <= |script|
  {
    forall i :: 0 <= i < k && script[i].Look? ==> script[i].clock < expiry && Cancel !in script[..i]
  }

  ghost predicate TimeoutAt(script: seq<Moment>, expiry: nat, k: nat) {
    k < |script| && Uneventful(script, expiry, k) && script[k].Look? && script[k].clock >= expiry
  }

  ghost predicate CancelAt(script: seq<Moment>, expiry: nat, k: nat) {
    k < |script| && Uneventful(script, expiry, k) && script[k].Look? && script[k].clock < expiry
    && Cancel in script[..k]
  }

  /** A look ends the wait exactly if it is the first one at or after expiry or after a cancellation. */
  lemma EndsExactly(script: seq<Moment>, expiry: nat, k: nat)
    requires Honest(script, expiry) && k < |script|
    ensures EndsAt(script, expiry, k) && Conclusion(script, expiry, k) == Timeout
            <==> TimeoutAt(script, expiry, k)
    ensures EndsAt(script, expiry, k) && Conclusion(script, expiry, k) == CancelRequested
            <==> CancelAt(script, expiry, k)
  {
    forall i | 0 <= i < |script|
      ensures Decisive(script, expiry, i) <==>
                script[i].Look? && (script[i].clock >= expiry || Cancel in script[..i])
    {
      assert script[i] in script;
    }
  }

  /**
   * How a wait ends: by timeout if and only if the first look that comes at or after expiry or after a
   * cancellation is not before expiry, by cancellation if and only if it is, and never if there is none.
   */
  lemma OutcomeExactly(script: seq<Moment>, expiry: nat)
    requires Honest(script, expiry)
    ensures EndsAs(script, expiry, Timeout) <==> exists k: nat :: TimeoutAt(script, expiry, k)
    ensures EndsAs(script, expiry, CancelRequested) <==> exists k: nat :: CancelAt(script, expiry, k)
    ensures Undecided(script, expiry) <==> Uneventful(script, expiry, |script|)
    ensures !EndsAs(script, expiry, Idle)
  {
    forall k | 0 <= k < |script|
      ensures EndsAt(script, expiry, k) && Conclusion(script, expiry, k) == Timeout <==> TimeoutAt(script, expiry, k)
      ensures EndsAt(script, expiry, k) && Conclusion(script, expiry, k) == CancelRequested <==> CancelAt(script, expiry, k)
    {
      EndsExactly(script, expiry, k);
    }
    if EndsAs(script, expiry, Timeout) {
      var k: nat :| EndsAt(script, expiry, k) && Conclusion(script, expiry, k) == Timeout;
      assert TimeoutAt(script, expiry, k);
    }
    if EndsAs(script, expiry, CancelRequested) {
      var k: nat :| EndsAt(script, expiry, k) && Conclusion(script, expiry, k) == CancelRequested;
      assert CancelAt(script, expiry, k);
    }
    forall i | 0 <= i < |script|
      ensures Decisive(script, expiry, i) <==>
                script[i].Look? && (script[i].clock >= expiry || Cancel in script[..i])
    {
      assert script[i] in script;
    }
  }

  /** A cancellation that does not come after position `i` was seen by then. */
  lemma SeenBefore(script: seq<Moment>, i: nat, j: nat)
    requires i < |script| && j < |script| && script[i].Look? && script[j] == Cancel
    ensures j < i ==> Cancel in script[..i]
  {
    if j < i { assert script[..i][j] == Cancel; }
  }
}
