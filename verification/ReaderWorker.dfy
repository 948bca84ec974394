/**
 * The worker thread that reads a connection, with its mutex and condition variable as steps. One other
 * thread connects and disconnects any number of times and finally shuts the worker down.
 */
module ReaderWorker {

  datatype Owner = Free | Worker | Controller

  /** Where the worker thread stands. */
  datatype WorkerStep =
    | TakeLock                                   // before the loop, and after a read
    | TestExit                                   // loop condition, holding the mutex
    | TestRunning                                // whether to wait at all
    | TestWait                                   // predicate of the wait, holding the mutex
    | Asleep(notified: bool)                     // mutex released
    | WakeUp                                     // take the mutex again, inside the wait
    | TestRead
    | Unlock                                     // release the mutex before reading
    | BeginRead
    | Reading                                    // ReadMessage is under way, and its result is stored after it
    | Finished

  /** Where the controlling thread stands. */
  datatype ControllerStep =
    | Idle
    | ConnectLock | ConnectSet | ConnectNotify | ConnectUnlock
    | DisconnectLock | DisconnectSet | DisconnectUnlock
    | ExitLock | ExitSet | ExitUnlock | ExitNotify
    | Join

  datatype State = State(
    exitRequest: bool,
    running: bool,
    mutex: Owner,
    worker: WorkerStep,
    controller: ControllerStep,
    readsAfterExit: nat)                         // reads begun since the exit request was set

  const Initial := State(false, false, Free, TakeLock, Idle, 0)

  datatype Event =
    | WorkerMoves(readOk: bool)                  // the result matters only when a read ends
    | SpuriousWakeUp
    | ControllerMoves
    | Connect                                    // the socket has been connected
    | Disconnect
    | DeInitialize                               // the socket has been closed

  function NextWorker(s: State, readOk: bool): State {
    match s.worker
    case TakeLock => if s.mutex == Free then s.(mutex := Worker, worker := TestExit) else s
    case TestExit =>
      if s.exitRequest then s.(mutex := Free, worker := Finished) else s.(worker := TestRunning)
    case TestRunning => s.(worker := if s.running then TestRead else TestWait)
    case TestWait =>
      if s.exitRequest || s.running then s.(worker := TestRead)
      else s.(mutex := Free, worker := Asleep(false))
    case Asleep(notified) => if notified then s.(worker := WakeUp) else s
    case WakeUp => if s.mutex == Free then s.(mutex := Worker, worker := TestWait) else s
    case TestRead => s.(worker := if !s.exitRequest && s.running then Unlock else TestExit)
    case Unlock => s.(mutex := Free, worker := BeginRead)
    case BeginRead =>
      s.(worker := Reading, readsAfterExit := s.readsAfterExit + if s.exitRequest then 1 else 0)
    case Reading => s.(running := readOk, worker := TakeLock)
    case Finished => s
  }

  function NotifyAll(w: WorkerStep): WorkerStep {
    if w.Asleep? then Asleep(true) else w
  }

  function NextController(s: State): State {
    match s.controller
    case Idle => s
    case ConnectLock => if s.mutex == Free then s.(mutex := Controller, controller := ConnectSet) else s
    case ConnectSet => s.(running := true, controller := ConnectNotify)
    case ConnectNotify => s.(worker := NotifyAll(s.worker), controller := ConnectUnlock)
    case ConnectUnlock => s.(mutex := Free, controller := Idle)
    case DisconnectLock => if s.mutex == Free then s.(mutex := Controller, controller := DisconnectSet) else s
    case DisconnectSet => s.(running := false, controller := DisconnectUnlock)
    case DisconnectUnlock => s.(mutex := Free, controller := Idle)
    case ExitLock => if s.mutex == Free then s.(mutex := Controller, controller := ExitSet) else s
    case ExitSet => s.(exitRequest := true, running := false, controller := ExitUnlock)
    case ExitUnlock => s.(mutex := Free, controller := ExitNotify)
    case ExitNotify => s.(worker := NotifyAll(s.worker), controller := Join)
    case Join => s
  }

  function Next(s: State, e: Event): State {
    match e
    case WorkerMoves(readOk) => NextWorker(s, readOk)
    case SpuriousWakeUp => if s.worker.Asleep? then s.(worker := Asleep(true)) else s
    case ControllerMoves => NextController(s)
    case Connect => if s.controller == Idle then s.(controller := ConnectLock) else s
    case Disconnect => if s.controller == Idle then s.(controller := DisconnectLock) else s
    case DeInitialize => if s.controller == Idle then s.(controller := ExitLock) else s
  }

  function Exec(s: State, es: seq<Event>): State {
    if es == [] then s else Next(Exec(s, es[..|es| - 1]), es[|es| - 1])
  }

  // Invariants of every run.

  predicate WorkerHolds(w: WorkerStep) {
    w.TestExit? || w.TestRunning? || w.TestWait? || w.TestRead? || w.Unlock?
  }

  predicate ControllerHolds(c: ControllerStep) {
    || c.ConnectSet? || c.ConnectNotify? || c.ConnectUnlock? || c.DisconnectSet? || c.DisconnectUnlock?
    || c.ExitSet? || c.ExitUnlock?
  }

  predicate Inv(s: State) {
    // the mutex is held exactly in the critical sections
    && (s.mutex == Worker <==> WorkerHolds(s.worker))
    && (s.mutex == Controller <==> ControllerHolds(s.controller))
    // the exit request is set exactly from ExitSet on
    && (s.exitRequest <==> s.controller.ExitUnlock? || s.controller.ExitNotify? || s.controller.Join?)
    && (s.worker.Finished? ==> s.exitRequest)
    // no wake-up is lost: whoever sleeps unnotified has nothing to see, or is about to be notified
    && (s.worker == Asleep(false) && s.exitRequest ==> s.controller.ExitUnlock? || s.controller.ExitNotify?)
    && (s.worker == Asleep(false) && s.running ==> s.controller.ConnectNotify?)
    // after the exit request only a read that was already due is begun
    && s.readsAfterExit <= 1
    && (!s.exitRequest || s.worker.BeginRead? ==> s.readsAfterExit == 0)
    && (s.worker.Unlock? ==> !s.exitRequest)
  }

  lemma InvStep(s: State, e: Event)
    requires Inv(s)
    ensures Inv(Next(s, e))
  {
  }

  lemma {:induction false} InvHolds(es: seq<Event>)
    ensures Inv(Exec(Initial, es))
  {
    if es != [] {
      InvHolds(es[..|es| - 1]);
      InvStep(Exec(Initial, es[..|es| - 1]), es[|es| - 1]);
    }
  }

  // Shutdown.

  /** After the exit request is set the worker begins at most one more read. */
  lemma AtMostOneMoreRead(es: seq<Event>)
    ensures Exec(Initial, es).readsAfterExit <= 1
  {
    InvHolds(es);
  }

  /** The worker never sleeps with something to see, unless its notification is the controller's next work. */
  lemma NoLostWakeUp(es: seq<Event>)
    ensures var s := Exec(Initial, es);
            && (s.worker == Asleep(false) && s.running ==> s.controller == ConnectNotify)
            && (s.worker == Asleep(false) && s.exitRequest ==> s.controller in {ExitUnlock, ExitNotify})
            && (s.controller == Join ==> s.exitRequest && s.worker != Asleep(false))
  {
    InvHolds(es);
  }

  /** How many steps the worker is from leaving its loop once the controller waits for it. */
  function Distance(w: WorkerStep): nat {
    match w
    case Finished => 0
    case TestExit => 1
    case TestRead => 2
    case TakeLock => 2
    case TestWait => 3
    case Reading => 3
    case TestRunning => 4
    case WakeUp => 4
    case BeginRead => 4
    case Asleep(_) => 5
    case Unlock => 5
  }

  function WorkerMoveCount(es: seq<Event>): nat {
    if es == [] then 0
    else WorkerMoveCount(es[..|es| - 1]) + if es[|es| - 1].WorkerMoves? then 1 else 0
  }

  lemma DistanceStep(s: State, e: Event)
    requires Inv(s) && s.controller == Join
    ensures Next(s, e).controller == Join
    ensures if e.WorkerMoves? && s.worker != Finished
            then Distance(Next(s, e).worker) < Distance(s.worker)
            else Distance(Next(s, e).worker) == Distance(s.worker)
  {
  }

  /**
   * From the moment the controller joins, whatever else happens, the worker has left its loop after
   * five of its own steps, the end of a pending read being one of them.
   */
  lemma {:induction false} ShutdownCompletes(es: seq<Event>, fs: seq<Event>)
    requires Exec(Initial, es).controller == Join
    ensures var s := Exec(Initial, es + fs);
            && s.controller == Join
            && (s.worker != Finished ==> Distance(s.worker) + WorkerMoveCount(fs) <= 5)
            && (WorkerMoveCount(fs) >= 5 ==> s.worker == Finished)
  {
    if fs == [] {
      assert es + fs == es;
    } else {
      var last := |fs| - 1;
      var all := es + fs;
      assert all[..|all| - 1] == es + fs[..last];
      ShutdownCompletes(es, fs[..last]);
      InvHolds(es + fs[..last]);
      DistanceStep(Exec(Initial, es + fs[..last]), fs[last]);
    }
  }

  // Reading.

  /** A call of the controller that has the mutex comes to its end: connected, disconnected or joining. */
  lemma CallsComplete(es: seq<Event>)
    ensures var s := Exec(Initial, es);
            var t := Next(Next(Next(s, ControllerMoves), ControllerMoves), ControllerMoves);
            && (s.controller == ConnectSet ==> Connected(t) && t.worker != Asleep(false) && t.mutex == Free)
            && (s.controller == DisconnectSet ==> !t.running && t.controller == Idle && t.mutex == Free)
            && (s.controller == ExitSet ==> t.exitRequest && !t.running && t.controller == Join)
  {
    InvHolds(es);
  }

  /** A read is decided on only while the worker should read. */
  lemma ReadsOnlyWhileRunning(s: State, e: Event)
    requires Next(s, e).worker == Unlock && s.worker != Unlock
    ensures s.running && !s.exitRequest
  {
  }

  /** The connection is up and nobody is about to change that. */
  predicate Connected(s: State) {
    s.running && !s.exitRequest && s.controller == Idle
  }

  /** The controller does nothing, and a read that ends has succeeded. */
  predicate Undisturbed(e: Event) {
    e.SpuriousWakeUp? || e == ControllerMoves || e == WorkerMoves(true)
  }

  /** How many steps the worker is from the end of its next read. */
  function UntilRead(w: WorkerStep): nat {
    match w
    case Finished => 0
    case Reading => 1
    case BeginRead => 2
    case Unlock => 3
    case TestRead => 4
    case TestRunning => 5
    case TestWait => 5
    case TestExit => 6
    case WakeUp => 6
    case TakeLock => 7
    case Asleep(_) => 7
  }

  /** The number of reads that end on a continuation. */
  function ReadCount(s: State, es: seq<Event>): nat {
    if es == [] then 0
    else ReadCount(s, es[..|es| - 1])
         + if es[|es| - 1].WorkerMoves? && Exec(s, es[..|es| - 1]).worker == Reading then 1 else 0
  }

  lemma ReadingStep(s: State, e: Event)
    requires Inv(s) && Connected(s) && Undisturbed(e)
    ensures Connected(Next(s, e))
    ensures !e.WorkerMoves? ==> UntilRead(Next(s, e).worker) <= UntilRead(s.worker)
    ensures e.WorkerMoves? && s.worker != Reading ==> UntilRead(Next(s, e).worker) < UntilRead(s.worker)
    ensures e.WorkerMoves? && s.worker == Reading ==> UntilRead(Next(s, e).worker) <= 7
  {
  }

  lemma {:induction false} ExecAppend(s: State, es: seq<Event>, fs: seq<Event>)
    ensures Exec(s, es + fs) == Exec(Exec(s, es), fs)
  {
    if fs == [] {
      assert es + fs == es;
    } else {
      assert (es + fs)[..|es + fs| - 1] == es + fs[..|fs| - 1];
      ExecAppend(s, es, fs[..|fs| - 1]);
    }
  }

  /**
   * From any moment of any run at which the connection is up, for as long as the controller is idle and
   * reads succeed, the worker reads, and reads again: at most seven of its steps end one more read.
   */
  lemma {:induction false} ReadsGoOn(es: seq<Event>, fs: seq<Event>)
    requires Connected(Exec(Initial, es)) && forall e :: e in fs ==> Undisturbed(e)
    ensures var s := Exec(Initial, es);
            && Connected(Exec(s, fs))
            && WorkerMoveCount(fs) + UntilRead(Exec(s, fs).worker) <= UntilRead(s.worker) + 7 * ReadCount(s, fs)
    ensures WorkerMoveCount(fs) >= 7 ==> ReadCount(Exec(Initial, es), fs) >= 1
  {
    var s := Exec(Initial, es);
    InvHolds(es + fs);
    ExecAppend(Initial, es, fs);
    if fs != [] {
      var last := |fs| - 1;
      ReadsGoOn(es, fs[..last]);
      InvHolds(es + fs[..last]);
      ExecAppend(Initial, es, fs[..last]);
      ReadingStep(Exec(s, fs[..last]), fs[last]);
    }
    UntilReadPositive(Exec(s, fs));
  }

  lemma UntilReadPositive(s: State)
    requires Inv(s) && Connected(s)
    ensures 1 <= UntilRead(s.worker)
  {
  }

  /** The worker is not in a read and does not go to one. */
  predicate NotReading(s: State) {
    !s.running && !s.worker.Unlock? && !s.worker.BeginRead? && !s.worker.Reading?
  }

  predicate Connects(s: State, e: Event) {
    e == ControllerMoves && s.controller == ConnectSet
  }

  lemma NotReadingStep(s: State, e: Event)
    requires NotReading(s) && !Connects(s, e)
    ensures NotReading(Next(s, e)) && (e.WorkerMoves? ==> s.worker != Reading)
  {
  }

  /** A failed read, and a disconnect that hits no read, stop the reading until the next connect. */
  lemma {:induction false} StopsUntilConnect(es: seq<Event>, fs: seq<Event>)
    requires NotReading(Exec(Initial, es))
    requires forall k :: 0 <= k < |fs| ==> !Connects(Exec(Exec(Initial, es), fs[..k]), fs[k])
    ensures var s := Exec(Initial, es); NotReading(Exec(s, fs)) && ReadCount(s, fs) == 0
  {
    if fs != [] {
      var last := |fs| - 1;
      assert forall k :: 0 <= k < last ==> fs[..last][..k] == fs[..k];
      StopsUntilConnect(es, fs[..last]);
      NotReadingStep(Exec(Exec(Initial, es), fs[..last]), fs[last]);
    }
  }

  /**
   * These are the two ways: a read that fails, and a disconnect if and only if no read is due or under
   * way. A read that succeeds sets the flag again, whatever happened meanwhile.
   */
  lemma StopsReading(s: State)
    ensures s.worker == Reading ==> NotReading(Next(s, WorkerMoves(false))) && Next(s, WorkerMoves(true)).running
    ensures s.controller == DisconnectSet ==>
              (NotReading(Next(s, ControllerMoves))
               <==> !s.worker.Unlock? && !s.worker.BeginRead? && !s.worker.Reading?)
  {
  }

  /** Neither thread waits for the other for ever: somebody can always move, or both are done. */
  lemma NoDeadlock(es: seq<Event>)
    ensures var s := Exec(Initial, es);
            || s.controller == Idle                                // the application's turn
            || NextController(s) != s
            || NextWorker(s, true) != s
            || (s.controller == Join && s.worker == Finished)
  {
    InvHolds(es);
  }
}
