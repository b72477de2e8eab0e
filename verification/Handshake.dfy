/** The two-thread handshake of e2e/rules_cc/pthread.cc: one mutex, one condition variable used in both
directions, spurious wake-ups, and a join.  Every pthread call succeeds; each step is one call or one
access to the shared state, and the threads interleave freely. */
module Handshake {
  import opened Results

  datatype Thread = Main | Worker

  const MARKER := 0x1234

  /** A waiting thread is blocked while it is in the condition variable's queue; once out of it, it
      still has to take the mutex again. */
  datatype MainPc =
    | CreateKey | CreateThread | LockMain | CheckWaiting | CallWaitMain | WaitingMain
    | SetReady | SignalReady | UnlockMain | Join | DeleteKey | Decide | Exited(code: int)

  datatype WorkerPc =
    | NotStarted | SetTls | LockWorker | SetWaiting | SignalWaiting | CheckReady | CallWaitWorker | WaitingWorker
    | CheckTls | AddOne | UnlockWorker | Finished

  datatype State = State(
    owner: Option<Thread>,
    queue: set<Thread>,
    waiting: int,
    ready: int,
    value: int,
    tls: int,
    status: int,
    main: MainPc,
    worker: WorkerPc)

  const INITIAL := State(None, {}, 0, 0, 41, 0, 0, CreateKey, NotStarted)

  // ---- steps

  /** pthread_cond_signal: at least one waiter leaves the queue, if there is one. */
  ghost predicate Signalled(before: set<Thread>, after: set<Thread>) {
    after <= before && (before != {} ==> after != before)
  }

  /** What main's next step does, when it can take it; a signal empties the queue. */
  function MainMove(s: State): State {
    match s.main
    case CreateKey => s.(main := CreateThread)
    case CreateThread => s.(worker := SetTls, main := LockMain)
    case LockMain => s.(owner := Some(Main), main := CheckWaiting)
    case CheckWaiting => s.(main := if s.waiting == 0 then CallWaitMain else SetReady)
    case CallWaitMain => s.(owner := None, queue := s.queue + {Main}, main := WaitingMain)
    case WaitingMain => s.(owner := Some(Main), main := CheckWaiting)
    case SetReady => s.(ready := 1, main := SignalReady)
    case SignalReady => s.(queue := {}, main := UnlockMain)
    case UnlockMain => s.(owner := None, main := Join)
    case Join => s.(main := DeleteKey)
    case DeleteKey => s.(main := Decide)
    case Decide => s.(main := Exited(if s.status != 0 then 20 + s.status else if s.value != 42 then 40 else 0))
    case Exited(_) => s
  }

  /** main cannot take the mutex while it is held, wake up while it is queued, join a running thread, or go on
      after its exit. */
  predicate MainEnabled(s: State) {
    match s.main
    case LockMain => s.owner == None
    case WaitingMain => Main !in s.queue && s.owner == None
    case Join => s.worker == Finished
    case Exited(_) => false
    case _ => true
  }

  ghost predicate MainStep(s: State, t: State) {
    && MainEnabled(s)
    && if s.main == SignalReady then Signalled(s.queue, t.queue) && t == MainMove(s).(queue := t.queue)
       else t == MainMove(s)
  }

  function WorkerMove(s: State): State {
    match s.worker
    case NotStarted => s
    case SetTls => s.(tls := MARKER, worker := LockWorker)
    case LockWorker => s.(owner := Some(Worker), worker := SetWaiting)
    case SetWaiting => s.(waiting := 1, worker := SignalWaiting)
    case SignalWaiting => s.(queue := {}, worker := CheckReady)
    case CheckReady => s.(worker := if s.ready == 0 then CallWaitWorker else CheckTls)
    case CallWaitWorker => s.(owner := None, queue := s.queue + {Worker}, worker := WaitingWorker)
    case WaitingWorker => s.(owner := Some(Worker), worker := CheckReady)
    case CheckTls => if s.tls == MARKER then s.(worker := AddOne) else s.(status := 14, worker := UnlockWorker)
    case AddOne => s.(value := s.value + 1, worker := UnlockWorker)
    case UnlockWorker => s.(owner := None, worker := Finished)
    case Finished => s
  }

  predicate WorkerEnabled(s: State) {
    match s.worker
    case LockWorker => s.owner == None
    case WaitingWorker => Worker !in s.queue && s.owner == None
    case NotStarted => false
    case Finished => false
    case _ => true
  }

  ghost predicate WorkerStep(s: State, t: State) {
    && WorkerEnabled(s)
    && if s.worker == SignalWaiting then Signalled(s.queue, t.queue) && t == WorkerMove(s).(queue := t.queue)
       else t == WorkerMove(s)
  }

  /** A waiter may leave the queue for no reason. */
  ghost predicate SpuriousWake(s: State, t: State, thread: Thread) {
    thread in s.queue && t == s.(queue := s.queue - {thread})
  }

  datatype Event = ByMain | ByWorker | Spurious(thread: Thread)

  ghost predicate Step(s: State, event: Event, t: State) {
    match event
    case ByMain => MainStep(s, t)
    case ByWorker => WorkerStep(s, t)
    case Spurious(thread) => SpuriousWake(s, t, thread)
  }

  ghost predicate IsRun(states: seq<State>, events: seq<Event>) {
    && |states| == |events| + 1 && states[0] == INITIAL
    && forall i | 0 <= i < |events| :: Step(states[i], events[i], states[i + 1])
  }

  // ---- the invariant

  predicate MainHolds(pc: MainPc) {
    pc.CheckWaiting? || pc.CallWaitMain? || pc.SetReady? || pc.SignalReady? || pc.UnlockMain?
  }

  predicate WorkerHolds(pc: WorkerPc) {
    pc.SetWaiting? || pc.SignalWaiting? || pc.CheckReady? || pc.CallWaitWorker? || pc.CheckTls? || pc.AddOne?
    || pc.UnlockWorker?
  }

  predicate WorkerAnnounced(pc: WorkerPc) {
    !(pc.NotStarted? || pc.SetTls? || pc.LockWorker? || pc.SetWaiting?)
  }

  predicate MainAnswered(pc: MainPc) {
    pc.SignalReady? || pc.UnlockMain? || MainJoins(pc)
  }

  predicate MainJoins(pc: MainPc) {
    pc.Join? || MainJoined(pc)
  }

  predicate MainJoined(pc: MainPc) {
    pc.DeleteKey? || pc.Decide? || pc.Exited?
  }

  ghost predicate Inv(s: State) {
    // the mutex is held exactly by the thread whose code is between lock and unlock
    && (s.owner == Some(Main) <==> MainHolds(s.main))
    && (s.owner == Some(Worker) <==> WorkerHolds(s.worker))
    // a queued thread is waiting, and the signal it needs is still to come
    && (Main in s.queue ==> s.main == WaitingMain && (!WorkerAnnounced(s.worker) || s.worker == SignalWaiting))
    && (Worker in s.queue ==> s.worker == WaitingWorker && (!MainAnswered(s.main) || s.main == SignalReady))
    // the shared fields record the program counters
    && s.waiting == (if WorkerAnnounced(s.worker) then 1 else 0)
    && s.ready == (if MainAnswered(s.main) then 1 else 0)
    && s.value == (if s.worker == UnlockWorker || s.worker == Finished then 42 else 41)
    && (WorkerAnnounced(s.worker) ==> s.tls == MARKER) && (WorkerHolds(s.worker) ==> s.tls == MARKER)
    && (s.worker == LockWorker ==> s.tls == MARKER)
    && s.status == 0
    // a wait is entered only while the condition it waits for is false
    && (s.main == CallWaitMain ==> s.waiting == 0)
    && (s.worker == CallWaitWorker ==> s.ready == 0)
    && (s.main == SetReady || MainAnswered(s.main) ==> s.waiting == 1)
    && (s.worker in {CheckTls, AddOne, UnlockWorker, Finished} ==> s.ready == 1)
    // creation and join
    && (s.worker == NotStarted <==> s.main == CreateKey || s.main == CreateThread)
    && (MainJoined(s.main) ==> s.worker == Finished)
    && (s.main.Exited? ==> s.main.code == 0)
  }

  lemma StepKeepsInv(s: State, event: Event, t: State)
    requires Inv(s) && Step(s, event, t)
    ensures Inv(t)
  {
    match event
    case ByMain => MainKeepsInv(s, t);
    case ByWorker => WorkerKeepsInv(s, t);
    case Spurious(_) =>
  }

  lemma TwoThreads(s: State)
    ensures s.queue <= {Main, Worker}
    ensures s.queue != {} <==> Main in s.queue || Worker in s.queue
    ensures s.owner == None || s.owner == Some(Main) || s.owner == Some(Worker)
  {
    forall x | x in s.queue ensures x == Main || x == Worker {
    }
    match s.owner
    case None =>
    case Some(thread) => match thread case Main => case Worker =>
  }

  /** With only one thread able to wait, a signal leaves nobody behind. */
  lemma SignalEmpties(before: set<Thread>, after: set<Thread>, waiter: Thread)
    requires Signalled(before, after) && before <= {waiter}
    ensures after == {}
  {
    if before != {} {
      assert before == {waiter};
    }
  }

  lemma MainKeepsInv(s: State, t: State)
    requires Inv(s) && MainStep(s, t)
    ensures Inv(t)
  {
    TwoThreads(s);
    if s.main == SignalReady {
      assert s.queue <= {Worker};
      SignalEmpties(s.queue, t.queue, Worker);
    }
  }

  lemma WorkerKeepsInv(s: State, t: State)
    requires Inv(s) && WorkerStep(s, t)
    ensures Inv(t)
  {
    TwoThreads(s);
    if s.worker == SignalWaiting {
      assert s.queue <= {Main};
      SignalEmpties(s.queue, t.queue, Main);
    }
  }

  lemma {:induction false} RunKeepsInv(states: seq<State>, events: seq<Event>, i: nat)
    requires IsRun(states, events) && i < |states|
    ensures Inv(states[i])
  {
    hide Inv, Step;
    if i == 0 {
      InitialInv();
    } else {
      RunKeepsInv(states, events, i - 1);
      assert Step(states[i - 1], events[i - 1], states[i - 1 + 1]);
      StepKeepsInv(states[i - 1], events[i - 1], states[i]);
    }
  }

  lemma InitialInv()
    ensures Inv(INITIAL)
  {
  }

  // ---- safety over whole runs

  /** The two threads are never blocked in the queue together. */
  lemma NeverBothBlocked(states: seq<State>, events: seq<Event>, i: nat)
    requires IsRun(states, events) && i < |states|
    ensures !(Main in states[i].queue && Worker in states[i].queue)
  {
    RunKeepsInv(states, events, i);
  }

  /** A state that is not final has a step that is not a spurious wake-up. */
  lemma NeverStuck(states: seq<State>, events: seq<Event>, i: nat) returns (event: Event, t: State)
    requires IsRun(states, events) && i < |states| && !states[i].main.Exited?
    ensures !event.Spurious? && Step(states[i], event, t)
  {
    hide IsRun;
    RunKeepsInv(states, events, i);
    var s := states[i];
    TwoThreads(s);
    if s.owner == Some(Worker) || (s.main == WaitingMain && Main in s.queue) || (s.main == Join && s.worker != Finished) {
      event, t := ByWorker, WorkerMove(s);
    } else {
      event, t := ByMain, MainMove(s);
    }
  }

  /** The mutex discipline: the thread that reads or writes a shared field, waits, or unlocks holds the
      mutex; and no thread locks a mutex it already holds.  main reads value and the worker's status once
      more without the mutex, after the worker has finished. */
  lemma MutexDiscipline(states: seq<State>, events: seq<Event>, i: nat)
    requires IsRun(states, events) && i < |events|
    ensures var s, t := states[i], states[i + 1];
      && (s.waiting != t.waiting || s.value != t.value ==> events[i] == ByWorker && s.owner == Some(Worker))
      && (s.ready != t.ready ==> events[i] == ByMain && s.owner == Some(Main))
      && (events[i] == ByMain && s.main in {CheckWaiting, CallWaitMain, UnlockMain} ==> s.owner == Some(Main))
      && (events[i] == ByWorker && s.worker in {CheckReady, CallWaitWorker, UnlockWorker} ==> s.owner == Some(Worker))
      && (events[i] == ByMain && s.main == Decide ==> s.worker == Finished)
      && (s.main == LockMain ==> s.owner != Some(Main)) && (s.worker == LockWorker ==> s.owner != Some(Worker))
  {
    RunKeepsInv(states, events, i);
    assert Step(states[i], events[i], states[i + 1]);
  }

  /** That last read meets no write: once the worker has finished, value and status stay as they are. */
  lemma {:induction false} SettledAfterFinish(states: seq<State>, events: seq<Event>, i: nat, j: nat)
    requires IsRun(states, events) && i <= j < |states| && states[i].worker == Finished
    ensures states[j].worker == Finished && states[j].value == states[i].value && states[j].status == states[i].status
    decreases j - i
  {
    hide Inv, Step;
    if i < j {
      SettledAfterFinish(states, events, i, j - 1);
      RunStep(states, events, j - 1);
      RunKeepsInv(states, events, j - 1);
      FinishedStep(states[j - 1], events[j - 1], states[j]);
    }
  }

  lemma FinishedStep(s: State, event: Event, t: State)
    requires Inv(s) && Step(s, event, t) && s.worker == Finished
    ensures t.worker == Finished && t.value == s.value && t.status == s.status
  {
  }

  lemma {:induction false} ValueNeverFalls(states: seq<State>, events: seq<Event>, i: nat, j: nat)
    requires IsRun(states, events) && i <= j < |states|
    ensures states[i].value <= states[j].value
    decreases j - i
  {
    hide Step, Inv;
    if i < j {
      ValueNeverFalls(states, events, i, j - 1);
      RunStep(states, events, j - 1);
      RunKeepsInv(states, events, j - 1);
      ValueStep(states[j - 1], events[j - 1], states[j]);
    }
  }

  lemma RunStep(states: seq<State>, events: seq<Event>, i: nat)
    requires IsRun(states, events) && i < |events|
    ensures Step(states[i], events[i], states[i + 1]) && |states| == |events| + 1
  {
  }

  lemma ValueStep(s: State, event: Event, t: State)
    requires Inv(s) && Step(s, event, t)
    ensures t.value == s.value || (s.value == 41 && t.value == 42 && event == ByWorker && s.owner == Some(Worker))
    ensures t.value != s.value ==> s.ready == 1
  {
  }

  /** value is written at most once, by the worker, under the mutex, after main has answered. */
  lemma ValueWrittenOnce(states: seq<State>, events: seq<Event>, i: nat, j: nat)
    requires IsRun(states, events) && i < |events| && j < |events|
    requires states[i].value != states[i + 1].value && states[j].value != states[j + 1].value
    ensures i == j
    ensures states[i].value == 41 && states[i + 1].value == 42 && states[i].ready == 1
    ensures events[i] == ByWorker && states[i].owner == Some(Worker)
  {
    hide Step, Inv, IsRun;
    RunStep(states, events, i);
    RunStep(states, events, j);
    RunKeepsInv(states, events, i);
    RunKeepsInv(states, events, j);
    ValueStep(states[i], events[i], states[i + 1]);
    ValueStep(states[j], events[j], states[j + 1]);
    if i < j {
      ValueNeverFalls(states, events, i + 1, j);
    } else if j < i {
      ValueNeverFalls(states, events, j + 1, i);
    }
  }

  /** Every completed run returns 0, with value 42 and the worker finished. */
  lemma CompletedRunsSucceed(states: seq<State>, events: seq<Event>, i: nat)
    requires IsRun(states, events) && i < |states| && states[i].main.Exited?
    ensures states[i].main == Exited(0) && states[i].value == 42 && states[i].worker == Finished
    ensures states[i].owner == None && states[i].queue == {}
  {
    RunKeepsInv(states, events, i);
    TwoThreads(states[i]);
  }

  // ---- termination

  function MainRank(s: State): nat {
    match s.main
    case CreateKey => 13
    case CreateThread => 12
    case LockMain => 11
    case CheckWaiting => 10
    case CallWaitMain => 9
    case WaitingMain => if Main in s.queue then 8 else 11
    case SetReady => 9
    case SignalReady => 8
    case UnlockMain => 4
    case Join => 3
    case DeleteKey => 2
    case Decide => 1
    case Exited(_) => 0
  }

  function WorkerRank(s: State): nat {
    match s.worker
    case NotStarted => 14
    case SetTls => 14
    case LockWorker => 13
    case SetWaiting => 12
    case SignalWaiting => 11
    case CheckReady => 7
    case CallWaitWorker => 6
    case WaitingWorker => if Worker in s.queue then 5 else 8
    case CheckTls => 4
    case AddOne => 3
    case UnlockWorker => 2
    case Finished => 0
  }

  function Rank(s: State): nat {
    MainRank(s) + WorkerRank(s)
  }

  /** Every step lowers the rank, except that a spurious wake-up may raise it by three. */
  lemma StepLowersRank(s: State, event: Event, t: State)
    requires Inv(s) && Step(s, event, t)
    ensures if event.Spurious? then Rank(t) <= Rank(s) + 3 else Rank(t) < Rank(s)
  {
    TwoThreads(s);
  }

  function SpuriousCount(events: seq<Event>): nat {
    if events == [] then 0
    else SpuriousCount(events[..|events| - 1]) + if events[|events| - 1].Spurious? then 1 else 0
  }

  /** A run with k spurious wake-ups takes at most 27 + 4k steps: spurious wake-ups aside, the
      handshake always terminates. */
  lemma {:induction false} RunsAreShort(states: seq<State>, events: seq<Event>)
    requires IsRun(states, events)
    ensures |events| + Rank(states[|events|]) <= 27 + 4 * SpuriousCount(events)
  {
    hide Step, Inv;
    var n := |events|;
    if n == 0 {
      assert Rank(INITIAL) == 27;
    } else {
      var states', events' := states[..n], events[..n - 1];
      assert IsRun(states', events') by {
        forall i | 0 <= i < n - 1 ensures Step(states'[i], events'[i], states'[i + 1]) {
          assert Step(states[i], events[i], states[i + 1]);
        }
      }
      RunsAreShort(states', events');
      RunKeepsInv(states, events, n - 1);
      assert Step(states[n - 1], events[n - 1], states[n - 1 + 1]);
      StepLowersRank(states[n - 1], events[n - 1], states[n]);
    }
  }
}
